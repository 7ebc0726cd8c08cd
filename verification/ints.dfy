/** Fixed-width integer types of the on-disk format and the arithmetic facts
    the address computations rely on. Dafny integers are unbounded, so every
    place where the Rust code could wrap or overflow is written out explicitly
    against these limits. */
module Ints {

  const U32_LIMIT: nat := 0x1_0000_0000
  const U64_LIMIT: nat := 0x1_0000_0000_0000_0000

  type uint8 = x: int | 0 <= x < 0x100
  type uint16 = x: int | 0 <= x < 0x1_0000
  type uint32 = x: int | 0 <= x < 0x1_0000_0000
  type uint64 = x: int | 0 <= x < 0x1_0000_0000_0000_0000
  type byte = uint8

  function Min(a: int, b: int): int {
    if a <= b then a else b
  }

  /** `1 << n` on unbounded integers. */
  function Pow2(n: nat): (p: nat)
    ensures p >= 1
  {
    if n == 0 then 1 else 2 * Pow2(n - 1)
  }

  /** Rust's `usize::div_ceil`. */
  function DivCeil(a: nat, b: nat): nat
    requires b > 0
  {
    (a + b - 1) / b
  }

  lemma {:induction false} Pow2Add(a: nat, b: nat)
    ensures Pow2(a + b) == Pow2(a) * Pow2(b)
    decreases a
  {
    if a > 0 {
      Pow2Add(a - 1, b);
      assert Pow2(a + b) == 2 * Pow2(a - 1 + b);
    }
  }

  lemma {:induction false} Pow2Monotone(a: nat, b: nat)
    requires a <= b
    ensures Pow2(a) <= Pow2(b)
    decreases b
  {
    if a < b {
      Pow2Monotone(a, b - 1);
    }
  }

  lemma Pow2Constants()
    ensures Pow2(9) == 512 && Pow2(24) == 0x100_0000 && Pow2(31) == 0x8000_0000
  {
    assert Pow2(12) == 0x1000 && Pow2(7) == 0x80;
    Pow2Add(12, 12);
    Pow2Add(24, 7);
  }

  /** Block sizes the superblock admits, 2^9 ..= 2^24. */
  lemma BlockSizeRange(bits: nat)
    requires 9 <= bits <= 24
    ensures 512 <= Pow2(bits) <= 0x100_0000
  {
    Pow2Monotone(9, bits);
    Pow2Monotone(bits, 24);
    Pow2Constants();
  }

  /** Euclidean division is determined by quotient and remainder. */
  lemma DivModUnique(a: int, b: int, q: int, r: int)
    requires b > 0 && 0 <= r < b && a == q * b + r
    ensures a / b == q && a % b == r
  {
    var q', r' := a / b, a % b;
    assert a == q' * b + r';
    if q' > q {
      assert q' * b >= (q + 1) * b by { MulMonotone(q + 1, q', b); }
    } else if q' < q {
      assert q * b >= (q' + 1) * b by { MulMonotone(q' + 1, q, b); }
    }
  }

  /** The facts about `a / b` and `a % b` on naturals that the address
      computations use, stated once. */
  lemma DivModBasics(a: nat, b: nat)
    requires b > 0
    ensures 0 <= a / b <= a && 0 <= a % b < b && a == (a / b) * b + a % b
  {
    var q, r := a / b, a % b;
    assert a == q * b + r;
    if q < 0 {
      MulMonotone(q, -1, b);
    }
    MulMonotone(1, b, q);
  }

  lemma MulAddDistrib(a: int, b: int, c: int)
    ensures (a + b) * c == a * c + b * c
  {
  }

  lemma MulAssoc(a: int, b: int, c: int)
    ensures (a * b) * c == a * (b * c)
  {
  }

  lemma MulMonotone(x: int, y: int, b: int)
    requires x <= y && b >= 0
    ensures x * b <= y * b
  {
    assert y * b - x * b == (y - x) * b;
  }

  /** A product of bounded naturals is bounded by the product of the bounds. */
  lemma MulBound(x: nat, y: nat, xMax: nat, yMax: nat)
    requires x <= xMax && y <= yMax
    ensures x * y <= xMax * yMax
  {
    MulMonotone(x, xMax, y);
    assert xMax * y <= xMax * yMax by {
      assert xMax * yMax - xMax * y == xMax * (yMax - y);
    }
  }

  /** A u32 block number times a block size of at most 16 MiB stays below
      2^56. */
  lemma BlockAddressBound(block: nat, bs: nat)
    requires block < U32_LIMIT && bs <= 0x100_0000
    ensures block * bs < 0x100_0000_0000_0000
  {
    MulBound(block, bs, U32_LIMIT - 1, 0x100_0000);
  }

  /** `i` is a valid index among `DivCeil(a, b)` units of size `b` exactly
      when unit `i` starts before `a`. */
  lemma DivCeilIndex(a: nat, b: nat, i: nat)
    requires b > 0
    ensures i < DivCeil(a, b) <==> i * b < a
  {
    var c := DivCeil(a, b);
    var r := (a + b - 1) % b;
    DivModUnique(a + b - 1, b, c, r);
    if i < c {
      MulMonotone(i, c - 1, b);
      assert (c - 1) * b == c * b - b;
    } else {
      MulMonotone(c, i, b);
    }
  }

  /** A value below `a` lies in one of the `DivCeil(a, b)` units. */
  lemma DivCeilCovers(a: nat, b: nat, o: nat)
    requires b > 0
    ensures o < a ==> o / b < DivCeil(a, b)
  {
    DivModUnique(o, b, o / b, o % b);
    MulMonotone(0, o / b, b);
    DivCeilIndex(a, b, o / b);
  }

  lemma DivMonotone(a: nat, b: nat, d: nat)
    requires d > 0 && a <= b
    ensures a / d <= b / d
  {
    DivModBasics(a, d);
    DivModBasics(b, d);
    if a / d > b / d {
      MulMonotone(b / d + 1, a / d, d);
    }
  }

  /** The unit of size b numbered q ends no later than the end of the unit
      of size m*b that contains it. */
  lemma UnitEndsInGroup(q: nat, b: nat, m: nat)
    requires b > 0 && m > 0
    ensures (q + 1) * b <= (q / m + 1) * (m * b)
  {
    var g, rest := q / m, q % m + 1;
    DivModBasics(q, m);
    assert q + 1 == g * m + rest;
    calc {
      (q + 1) * b;
      (g * m + rest) * b;
      { MulAddDistrib(g * m, rest, b); }
      (g * m) * b + rest * b;
      { MulAssoc(g, m, b); }
      g * (m * b) + rest * b;
    <= { MulMonotone(rest, m, b); }
      g * (m * b) + m * b;
      { MulAddDistrib(g, 1, m * b); }
      (g + 1) * (m * b);
    }
  }

  /** Splitting a position into (unit of size m*b, sub-unit of size b, rest)
      agrees with splitting it into (unit of size b, rest) first. */
  lemma NestedDivMod(o: nat, b: nat, m: nat)
    requires b > 0 && m > 0
    ensures o / (m * b) == (o / b) / m
    ensures (o % (m * b)) / b == (o / b) % m
    ensures (o % (m * b)) % b == o % b
  {
    var q, r := o / b, o % b;
    var qq, rr := q / m, q % m;
    assert o == q * b + r;
    assert q == qq * m + rr;
    assert o == qq * (m * b) + (rr * b + r) by {
      assert q * b == (qq * m + rr) * b == qq * (m * b) + rr * b;
    }
    assert rr * b + r < m * b by {
      MulMonotone(rr, m - 1, b);
      assert (m - 1) * b == m * b - b;
    }
    assert 0 <= rr * b by { MulMonotone(0, rr, b); }
    DivModUnique(o, m * b, qq, rr * b + r);
    DivModUnique(rr * b + r, b, rr, r);
  }

  /** Two positions in the same unit of size m*b ... share the unit when they
      share the sub-unit of size b. */
  lemma SameBlockSameChunk(o: nat, o': nat, b: nat, m: nat)
    requires b > 0 && m > 0 && o / b == o' / b
    ensures o / (m * b) == o' / (m * b)
    ensures (o % (m * b)) / b == (o' % (m * b)) / b
  {
    NestedDivMod(o, b, m);
    NestedDivMod(o', b, m);
  }

  /** The start of the unit of size b containing `o`, plus an in-unit
      displacement below b, stays in that unit. */
  lemma InBlock(o: nat, b: nat, j: nat)
    requires b > 0 && o % b + j < b
    ensures (o + j) / b == o / b
    ensures (o + j) % b == o % b + j
  {
    DivModUnique(o + j, b, o / b, o % b + j);
  }

  /** A position `j` into the unit of size b that holds `o` lies in the same
      unit of size m*b as `o`, at the matching place inside it. */
  lemma UnitPosition(o: nat, b: nat, m: nat, j: nat)
    requires b > 0 && m > 0 && j < b
    ensures ((o / b) * b + j) / (m * b) == o / (m * b)
    ensures ((o / b) * b + j) % (m * b) == ((o / b) % m) * b + j
  {
    var q := o / b;
    var p := q * b + j;
    DivModBasics(o, b);
    MulMonotone(0, q, b);
    DivModUnique(p, b, q, j);
    NestedDivMod(p, b, m);
    NestedDivMod(o, b, m);
    DivModBasics(p % (m * b), b);
  }
}
