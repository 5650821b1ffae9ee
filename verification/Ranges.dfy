/**
 The shift-and-mask arithmetic that turns a route into a range of table cells,
 and the proof that the range is exactly the set of addresses the route covers.
 */
module Ranges {
  import opened Bits
  import opened Routes

  const TBL24_SIZE := 0x100_0000
  const GROUP_SIZE := 0x100

  type Index24 = x: int | 0 <= x < 0x100_0000

  /** The address whose first 24 bits are idx and whose last 8 bits are off. */
  function Address(idx: Index24, off: Byte): Word32 {
    idx * 0x100 + off
  }

  /** First cell of a short route. C leaves `addr >> 32`, which prefix 0 asks for,
      undefined: the value it takes is the parameter `shift32`. */
  function MinIndex(addr: Word32, prefix: Prefix, shift32: Word32 -> Word32): Word32
    requires prefix <= 24
  {
    Shl32(if prefix == 0 then shift32(addr) else Shr32(addr, 32 - prefix), 24 - prefix)
  }

  function MaxIndex(min: Word32, prefix: Prefix): nat
    requires prefix <= 24
  {
    Or(min, Pow2(24 - prefix) - 1)
  }

  /** First cell of a long route inside its group. */
  function MinOffset(addr: Word32, prefix: Prefix): nat
    requires 24 < prefix
  {
    Pow2Monotone(32 - prefix, 7);
    And(And(addr, Pow2(8) - 1), Not32(Pow2(32 - prefix) - 1))
  }

  function MaxOffset(min: nat, prefix: Prefix): nat
    requires 24 < prefix
  {
    Or(min, Pow2(32 - prefix) - 1)
  }

  /** Splitting an address at a boundary left of bit 8 only looks at its index. */
  lemma NetworkOfIndex(idx: Index24, off: Byte, prefix: Prefix)
    requires prefix <= 24
    ensures Network(Address(idx, off), prefix) == idx / Pow2(24 - prefix)
  {
    var m := Pow2(24 - prefix);
    Pow2Add(8, 24 - prefix);
    Pow2Values();
    DivDiv(Address(idx, off), 0x100, m);
    QuotientUnique(Address(idx, off), 0x100, idx, off);
  }

  /** For prefixes 1 to 24 no bit is lost and the range stays in the table. */
  lemma {:induction false} ShortRangeBounds(addr: Word32, prefix: Prefix, shift32: Word32 -> Word32)
    requires 1 <= prefix <= 24
    ensures MinIndex(addr, prefix, shift32) == Network(addr, prefix) * Pow2(24 - prefix)
    ensures MaxIndex(MinIndex(addr, prefix, shift32), prefix)
            == Network(addr, prefix) * Pow2(24 - prefix) + (Pow2(24 - prefix) - 1)
    ensures MaxIndex(MinIndex(addr, prefix, shift32), prefix) < TBL24_SIZE
  {
    var q, m, n := Network(addr, prefix), Pow2(24 - prefix), Pow2(prefix);
    Pow2Add(prefix, 32 - prefix);
    Pow2Add(prefix, 24 - prefix);
    Pow2Values();
    hide Or, Pow2;
    QuotientBelow(addr, Pow2(32 - prefix), n);
    BlockInTable(q, m, n);
    OrLowMask(q * m, 24 - prefix);
  }

  lemma BlockInTable(q: nat, m: nat, n: nat)
    requires q < n && m >= 1 && n * m == TBL24_SIZE
    ensures q * m % m == 0 && q * m + (m - 1) < TBL24_SIZE && q * m % 0x1_0000_0000 == q * m
  {
    LastOfBlock(q, m, n);
    QuotientUnique(q * m, m, q, 0);
    QuotientUnique(q * m, 0x1_0000_0000, 0, q * m);
  }

  lemma QuotientBelow(x: nat, d: nat, n: nat)
    requires d >= 1 && x < n * d
    ensures 0 <= x / d < n
  {
    var q := x / d;
    assert x == d * q + x % d;
    if q >= n {
      LastOfBlock(n, d, q + 1);
      assert false;
    }
  }

  lemma LastOfBlock(q: nat, m: nat, n: nat)
    requires q < n
    ensures q * m + m <= n * m
  {
    assert (n - q) * m >= m by {
      MulAtLeast(m, n - q);
    }
    assert (n - q) * m == n * m - q * m;
  }

  /** A short route with prefix 1 to 24 covers exactly the cells of its range. */
  lemma {:induction false} ShortRange(r: Route, idx: Index24, off: Byte, shift32: Word32 -> Word32)
    requires 1 <= r.prefix <= 24
    ensures var min := MinIndex(r.addr, r.prefix, shift32);
            min <= idx <= MaxIndex(min, r.prefix) <==> Covers(r, Address(idx, off))
  {
    ShortRangeBounds(r.addr, r.prefix, shift32);
    NetworkOfIndex(idx, off, r.prefix);
    DivBound(r.addr, Pow2(32 - r.prefix));
    BlockOf(idx, Pow2(24 - r.prefix), Network(r.addr, r.prefix));
  }

  /** With prefix 0 the range is a whole table's worth of cells starting at a
      multiple of the table size: the table itself exactly when the low byte of
      the undefined shift is zero. */
  lemma {:induction false} DefaultRange(addr: Word32, shift32: Word32 -> Word32)
    ensures MinIndex(addr, 0, shift32) == (shift32(addr) % 0x100) * TBL24_SIZE
    ensures MaxIndex(MinIndex(addr, 0, shift32), 0) == MinIndex(addr, 0, shift32) + (TBL24_SIZE - 1)
  {
    var v := shift32(addr);
    Pow2Values();
    QuotientUnique(v * TBL24_SIZE, 0x1_0000_0000, v / 0x100, (v % 0x100) * TBL24_SIZE);
    var min := (v % 0x100) * TBL24_SIZE;
    QuotientUnique(min, TBL24_SIZE, v % 0x100, 0);
    OrLowMask(min, 24);
  }

  lemma DefaultCoversAll(r: Route, ip: Word32)
    requires r.prefix == 0
    ensures Covers(r, ip)
  {
    Pow2Values();
  }

  /** The offsets of a long route stay in the group. */
  lemma {:induction false} LongRangeBounds(addr: Word32, prefix: Prefix)
    requires 24 < prefix
    ensures var d := Pow2(32 - prefix); var low := addr % 0x100;
            && MinOffset(addr, prefix) == low - low % d
            && MaxOffset(MinOffset(addr, prefix), prefix) == low - low % d + (d - 1) < GROUP_SIZE
  {
    hide And, Or, Pow2, MinOffset;
    LongMasks(addr, prefix);
    LongTop(addr, prefix);
  }

  lemma {:induction false} LongTop(addr: Word32, prefix: Prefix)
    requires 24 < prefix
    ensures var d := Pow2(32 - prefix); var min := addr % 0x100 - addr % 0x100 % d;
            0 <= min && MaxOffset(min, prefix) == min + (d - 1) < GROUP_SIZE
  {
    var s := 32 - prefix;
    hide And, Or, Pow2;
    FloorInGroup(addr % 0x100, Pow2(s), Pow2(8 - s)) by {
      Pow2Add(8 - s, s);
      Pow2Values();
    }
    OrLowMask(addr % 0x100 - addr % 0x100 % Pow2(s), s);
  }

  lemma {:induction false} LongMasks(addr: Word32, prefix: Prefix)
    requires 24 < prefix
    ensures MinOffset(addr, prefix) == addr % 0x100 - addr % 0x100 % Pow2(32 - prefix)
  {
    Pow2Values();
    hide And, Or, Pow2;
    AndLowMask(addr, 8);
    AndHighMask(addr % 0x100, 32 - prefix, 32);
  }

  lemma FloorInGroup(low: Byte, d: nat, e: nat)
    requires d >= 1 && e * d == 0x100
    ensures (low - low % d) % d == 0
    ensures 0 <= low - low % d && low - low % d + (d - 1) < GROUP_SIZE
  {
    var q := low / d;
    assert low - low % d == d * q;
    QuotientUnique(d * q, d, q, 0);
    QuotientBelow(low, d, e);
    LastOfBlock(q, d, e);
  }

  /** A long route covers the addresses of its index whose offset lies in the same
      block of 2^(32 - prefix) offsets. */
  lemma {:induction false} LongCovers(r: Route, idx: Index24, off: Byte)
    requires 24 < r.prefix
    ensures Covers(r, Address(idx, off)) <==>
            idx == r.addr / 0x100 && off / Pow2(32 - r.prefix) == (r.addr % 0x100) / Pow2(32 - r.prefix)
  {
    var s := 32 - r.prefix;
    Pow2Values();
    Pow2Add(s, 8 - s);
    hide Pow2;
    var d, e := Pow2(s), Pow2(8 - s);
    SplitQuotient(idx, off, d, e);
    SplitQuotient(r.addr / 0x100, r.addr % 0x100, d, e);
    SameSplit(e, idx, off / d, r.addr / 0x100, (r.addr % 0x100) / d);
  }

  /** A long route covers exactly the cells of its range in the group of its index. */
  lemma {:induction false} LongRange(r: Route, idx: Index24, off: Byte)
    requires 24 < r.prefix
    ensures var min := MinOffset(r.addr, r.prefix);
            (idx == r.addr / 0x100 && min <= off <= MaxOffset(min, r.prefix)) <==> Covers(r, Address(idx, off))
  {
    hide MinOffset, MaxOffset, Covers, Pow2;
    var d, low := Pow2(32 - r.prefix), r.addr % 0x100;
    LongRangeBounds(r.addr, r.prefix);
    LongCovers(r, idx, off);
    SameBlock(off, low, d);
  }

  lemma SameSplit(e: nat, i: nat, a: nat, j: nat, b: nat)
    requires a < e && b < e
    ensures i * e + a == j * e + b <==> i == j && a == b
  {
    if i * e + a == j * e + b {
      RemainderUnique(e, i, a, j, b);
    }
  }

  /** Dividing by d keeps the index apart from the offset when d * e is 256. */
  lemma SplitQuotient(idx: nat, off: Byte, d: nat, e: nat)
    requires d >= 1 && e >= 1 && d * e == 0x100
    ensures (idx * 0x100 + off) / d == idx * e + off / d
    ensures 0 <= off / d < e
  {
    var q, r := off / d, off % d;
    assert idx * (d * e) == d * (idx * e);
    assert idx * 0x100 + off == d * (idx * e + q) + r by {
      assert d * (idx * e + q) == d * (idx * e) + d * q;
    }
    QuotientUnique(idx * 0x100 + off, d, idx * e + q, r);
    assert e * d == 0x100;
    QuotientBelow(off, d, e);
  }
}
