/**
 Machine words as bounded integers, and the C bit operators the tables use.
 Shifts are products and quotients with powers of two. `&` and `|` are defined
 bit by bit; the lemmas say what they mean for the masks that occur in the code.
 */
module Bits {

  type Byte = x: int | 0 <= x < 0x100
  type Word16 = x: int | 0 <= x < 0x1_0000
  type Word32 = x: int | 0 <= x < 0x1_0000_0000

  function Pow2(n: nat): (r: nat)
    ensures r >= 1
  {
    if n == 0 then 1 else 2 * Pow2(n - 1)
  }

  /** `1 << n` truncated to 32 bits is only ever taken for n < 32. */
  function Shl32(x: Word32, n: nat): Word32 {
    (x * Pow2(n)) % 0x1_0000_0000
  }

  function Shr32(x: Word32, n: nat): (r: Word32)
    ensures r <= x
  {
    DivBound(x, Pow2(n));
    x / Pow2(n)
  }

  function And(x: nat, y: nat): nat {
    if x == 0 || y == 0 then 0
    else (if x % 2 == 1 && y % 2 == 1 then 1 else 0) + 2 * And(x / 2, y / 2)
  }

  function Or(x: nat, y: nat): nat {
    if x == 0 then y
    else if y == 0 then x
    else (if x % 2 == 1 || y % 2 == 1 then 1 else 0) + 2 * Or(x / 2, y / 2)
  }

  function Not32(x: Word32): Word32 {
    0xFFFF_FFFF - x
  }

  lemma DivBound(x: nat, d: nat)
    requires d >= 1
    ensures 0 <= x / d <= x
  {
    assert x == d * (x / d) + x % d;
  }

  lemma MulDouble(a: nat, b: nat)
    ensures 2 * (a * b) == (2 * a) * b
  {
  }

  lemma MulAtLeast(d: nat, k: nat)
    requires k >= 1
    ensures d * k >= d
  {
  }

  lemma {:induction false} Pow2Add(m: nat, n: nat)
    ensures Pow2(m + n) == Pow2(m) * Pow2(n)
  {
    if m > 0 {
      Pow2Add(m - 1, n);
      MulDouble(Pow2(m - 1), Pow2(n));
    }
  }

  lemma {:induction false} Pow2Monotone(m: nat, n: nat)
    requires m <= n
    ensures Pow2(m) <= Pow2(n)
  {
    if m < n {
      Pow2Monotone(m, n - 1);
    }
  }

  lemma Pow2Values()
    ensures Pow2(8) == 0x100 && Pow2(24) == 0x100_0000 && Pow2(31) == 0x8000_0000 && Pow2(32) == 0x1_0000_0000
  {
    Pow2Add(8, 8);
    Pow2Add(16, 8);
    Pow2Add(24, 8);
    assert Pow2(32) == 2 * Pow2(31);
  }

  /** Division by a product, one factor at a time. */
  lemma DivDiv(x: nat, a: nat, b: nat)
    requires a >= 1 && b >= 1
    ensures a * b >= 1 && x / (a * b) == (x / a) / b
  {
    var q, r := x / a, x % a;
    var q', r' := q / b, q % b;
    MulAtLeast(a, b);
    RegroupedRemainder(a, b, q, r, q', r');
    QuotientUnique(x, a * b, q', a * r' + r);
  }

  lemma RegroupedRemainder(a: nat, b: nat, q: nat, r: nat, q': nat, r': nat)
    requires q == b * q' + r' && r < a && r' < b
    ensures a * q + r == (a * b) * q' + (a * r' + r)
    ensures a * r' + r < a * b
  {
    assert a * (b * q' + r') == (a * b) * q' + a * r';
    assert a * (b - r') >= a by {
      MulAtLeast(a, b - r');
    }
  }

  lemma QuotientUnique(x: int, d: int, q: int, r: int)
    requires d >= 1 && x == d * q + r && 0 <= r < d
    ensures x / d == q && x % d == r
  {
    var q', r' := x / d, x % d;
    RemainderUnique(d, q, r, q', r');
  }

  lemma RemainderUnique(d: int, q: int, r: int, q': int, r': int)
    requires 0 <= r < d && 0 <= r' < d && d * q + r == d * q' + r'
    ensures q == q' && r == r'
  {
    assert d * (q - q') == r' - r;
    if q > q' {
      MulAtLeast(d, q - q');
    } else if q < q' {
      MulAtLeast(d, q' - q);
    }
  }

  /** The values with quotient q are the d consecutive ones from d * q. */
  lemma BlockOf(x: nat, d: nat, q: nat)
    requires d >= 1
    ensures x / d == q <==> q * d <= x <= q * d + (d - 1)
  {
    if q * d <= x <= q * d + (d - 1) {
      QuotientUnique(x, d, q, x - q * d);
    }
  }

  /** Two values have the same quotient when one lies in the block the other starts. */
  lemma SameBlock(x: nat, y: nat, d: nat)
    requires d >= 1
    ensures x / d == y / d <==> y - y % d <= x <= y - y % d + (d - 1)
  {
    var q := y / d;
    assert y - y % d == q * d;
    DivBound(y, d);
    BlockOf(x, d, q);
  }

  /** One bit of `&`. */
  lemma AndBit(x: nat, a: nat, b: nat, y: nat, c: nat, d: nat)
    requires x == 2 * a + b && b < 2 && y == 2 * c + d && d < 2
    ensures And(x, y) == (if b == 1 && d == 1 then 1 else 0) + 2 * And(a, c)
  {
    assert x / 2 == a && x % 2 == b && y / 2 == c && y % 2 == d;
  }

  /** One bit of `|`. */
  lemma OrBit(x: nat, a: nat, b: nat, y: nat, c: nat, d: nat)
    requires x == 2 * a + b && b < 2 && y == 2 * c + d && d < 2
    ensures Or(x, y) == (if b == 1 || d == 1 then 1 else 0) + 2 * Or(a, c)
  {
    assert x / 2 == a && x % 2 == b && y / 2 == c && y % 2 == d;
  }

  lemma DivModDouble(x: nat, a: nat, b: nat, m: nat, p: nat)
    requires x == 2 * a + b && b < 2 && m == 2 * p && p >= 1
    ensures x / m == a / p && x % m == 2 * (a % p) + b
  {
    var q, r := a / p, a % p;
    MulDouble(p, q);
    QuotientUnique(x, m, q, 2 * r + b);
  }

  /** `x & (2^n - 1)` keeps the low n bits. */
  lemma {:induction false} AndLowMask(x: nat, n: nat)
    ensures And(x, Pow2(n) - 1) == x % Pow2(n)
  {
    if n > 0 {
      var a, b, p := x / 2, x % 2, Pow2(n - 1);
      AndLowMask(a, n - 1);
      AndBit(x, a, b, Pow2(n) - 1, p - 1, 1);
      DivModDouble(x, a, b, Pow2(n), p);
    }
  }

  /** `x & ~(2^n - 1)` clears the low n bits; for a w-bit x the mask is 2^w - 2^n. */
  lemma {:induction false} AndHighMask(x: nat, n: nat, w: nat)
    requires n <= w && x < Pow2(w)
    ensures Pow2(n) <= Pow2(w)
    ensures And(x, Pow2(w) - Pow2(n)) == x - x % Pow2(n)
  {
    if n == 0 {
      AndLowMask(x, w);
      QuotientUnique(x, Pow2(w), 0, x);
    } else {
      var a, b, p, u := x / 2, x % 2, Pow2(n - 1), Pow2(w - 1);
      AndHighMask(a, n - 1, w - 1);
      AndBit(x, a, b, Pow2(w) - Pow2(n), u - p, 0);
      DivModDouble(x, a, b, Pow2(n), p);
    }
  }

  /** `x | (2^n - 1)` sets the n low bits of an x in which they are clear. */
  lemma {:induction false} OrLowMask(x: nat, n: nat)
    requires x % Pow2(n) == 0
    ensures Or(x, Pow2(n) - 1) == x + (Pow2(n) - 1)
  {
    if n > 0 {
      var a, b, p := x / 2, x % 2, Pow2(n - 1);
      DivModDouble(x, a, b, Pow2(n), p);
      assert b == 0 && a % p == 0;
      OrLowMask(a, n - 1);
      OrBit(x, a, b, Pow2(n) - 1, p - 1, 1);
    }
  }
}
