/** The few facts about products and quotients that the solver is not asked to find by itself. */
module Arithmetic {

  lemma MulDistr(a: int, b: int, c: int)
    ensures (a + b) * c == a * c + b * c && (a - b) * c == a * c - b * c
  {
  }

  lemma MulAssoc(a: int, b: int, c: int)
    ensures a * b * c == a * (b * c) == a * c * b
  {
  }

  lemma MulMono(a: int, b: int, c: int)
    requires a <= b && c >= 0
    ensures a * c <= b * c
  {
  }

  lemma MulAtLeast(k: int, d: int)
    requires k >= 1 && d > 0
    ensures k * d >= d
  {
    MulMono(1, k, d);
  }

  lemma DivUnique(x: int, d: int, q: int, r: int)
    requires 0 <= r < d && x == q * d + r
    ensures x / d == q && x % d == r
  {
    var k := x / d - q;
    assert k * d == r - x % d;
    if k >= 1 {
      MulAtLeast(k, d);
    } else if k <= -1 {
      MulAtLeast(-k, d);
    }
  }

  lemma DivDefinition(x: int, d: int)
    requires d > 0
    ensures x == x / d * d + x % d && 0 <= x % d < d
  {
  }

  lemma MulLess(a: int, b: int, c: int)
    requires a * c < b * c && c > 0
    ensures a < b
  {
    if b <= a {
      MulMono(b, a, c);
    }
  }

  lemma DivDiv(x: int, a: int, b: int)
    requires a > 0 && b > 0
    ensures a * b > 0 && x / a / b == x / (a * b)
    ensures x % (a * b) == x / a % b * a + x % a
  {
    var q, r := x / a, x % a;
    var s, t := q / b, q % b;
    DivDefinition(x, a);
    DivDefinition(q, b);
    MulDistr(s * b, t, a);
    MulAssoc(s, b, a);
    assert a * b == b * a;
    MulMono(0, t, a);
    MulMono(t, b - 1, a);
    MulDistr(b, 1, a);
    DivUnique(x, b * a, s, t * a + r);
  }

  /** Shifting a word left: what leaves it at the top and what stays. */
  lemma ShiftedWord(l: int, p: int, m: int, w: int)
    requires p > 0 && m > 0 && w == p * m && 0 <= l < w
    ensures l * p == l / m * w + l % m * p && 0 <= l % m * p < w && 0 <= l / m < p
    ensures l * p / w == l / m && l * p % w == l % m * p
  {
    var q, r := l / m, l % m;
    DivDefinition(l, m);
    MulDistr(q * m, r, p);
    MulAssoc(q, m, p);
    assert m * p == w;
    MulMono(0, r, p);
    MulMono(r, m - 1, p);
    MulDistr(m, 1, p);
    DivUnique(l * p, w, q, r * p);
    MulLess(q, p, m);
    MulLess(-1, q, m);
  }

  /** Shifting a pair of words right. */
  lemma ShiftedPair(h: int, l: int, p: int, m: int, w: int)
    requires p > 0 && m > 0 && w == p * m && 0 <= l < w
    ensures (h * w + l) / p == h / p * w + (h % p * m + l / p)
    ensures 0 <= l / p < m && 0 <= h % p * m <= w - m
    ensures (h * w + l) % p == l % p
    ensures (h * w + l) / p == h * m + l / p
  {
    var q, r := h / p, h % p;
    DivDefinition(h, p);
    DivDefinition(l, p);
    MulDistr(q * p, r, m);
    MulAssoc(q, p, m);
    assert h * m == q * w + r * m;
    MulAssoc(h, m, p);
    assert m * p == w;
    MulDistr(h * m, l / p, p);
    DivUnique(h * w + l, p, h * m + l / p, l % p);
    MulLess(l / p, m, p);
    MulLess(-1, l / p, p);
    MulMono(0, r, m);
    MulMono(r, p - 1, m);
    MulDistr(p, 1, m);
  }

  lemma QuotientIsBounded(x: int, d: int, q: int, r: int)
    requires 0 <= r < d && x == q * d + r
    ensures x >= 0 ==> 0 <= q <= x
    ensures x < 0 ==> x <= q <= -1
  {
    if x >= 0 {
      MulLess(-1, q, d);
      MulMono(1, d, q);
      assert d * q == q * d;
    } else {
      MulLess(q, 0, d);
      MulMono(q + 1, 0, d - 1);
      MulDistr(q, 1, d - 1);
      assert q * (d - 1) == q * d - q;
    }
  }

  lemma DivShrinks(x: int, d: int)
    requires d > 0
    ensures x >= 0 ==> 0 <= x / d <= x
    ensures x < 0 ==> x <= x / d <= -1
  {
    DivDefinition(x, d);
    QuotientIsBounded(x, d, x / d, x % d);
  }
}
