/** The bit-mask arithmetic of the C sources, on natural numbers.

    C's `&` and `~` on `uint32_t` are defined here bit by bit. The lemmas give the
    arithmetic meaning of the two mask shapes the sources use, `v & (2^k - 1)` and
    `v & ~(2^k - 1)`, and with them that of the alignment macros of rtos/os_men.h. */
module CBits {

  const U32: nat := 0x1_0000_0000

  function Pow2(k: nat): (p: nat)
    ensures p >= 1
  {
    if k == 0 then 1 else 2 * Pow2(k - 1)
  }

  /** C's `x & y`. */
  function And(x: nat, y: nat): nat {
    if x == 0 || y == 0 then 0
    else 2 * And(x / 2, y / 2) + (if x % 2 == 1 && y % 2 == 1 then 1 else 0)
  }

  /** C's `~x` on uint32_t. */
  function Not32(x: nat): nat
    requires x < U32
  {
    U32 - 1 - x
  }

  /** Bit `i` of `x`. */
  predicate Bit(x: nat, i: nat) {
    if i == 0 then x % 2 == 1 else Bit(x / 2, i - 1)
  }

  /** `And` is the bitwise conjunction: it is defined by its bits. */
  lemma {:induction false} AndBits(x: nat, y: nat, i: nat)
    ensures Bit(And(x, y), i) <==> Bit(x, i) && Bit(y, i)
    decreases i
  {
    if x == 0 || y == 0 {
      ZeroBits(i);
    } else if i > 0 {
      assert And(x, y) / 2 == And(x / 2, y / 2);
      AndBits(x / 2, y / 2, i - 1);
    }
  }

  lemma {:induction false} ZeroBits(i: nat)
    ensures !Bit(0, i)
  {
    if i > 0 {
      ZeroBits(i - 1);
    }
  }

  lemma {:induction false} NotBits(x: nat, y: nat, k: nat, i: nat)
    requires x + y == Pow2(k) - 1 && i < k
    ensures Bit(x, i) <==> !Bit(y, i)
    decreases k
  {
    var m := Pow2(k - 1);
    assert x + y == 2 * m - 1;
    if i > 0 {
      assert x / 2 + y / 2 == m - 1;
      NotBits(x / 2, y / 2, k - 1, i - 1);
    }
  }

  /** `~` flips each of the 32 bits. */
  lemma Not32Bits(x: nat, i: nat)
    requires x < U32 && i < 32
    ensures Bit(Not32(x), i) <==> !Bit(x, i)
  {
    Pow2Of32();
    NotBits(Not32(x), x, 32, i);
  }

  lemma {:induction false} ModDouble(v: nat, p: nat)
    requires p >= 1
    ensures v % (2 * p) == 2 * ((v / 2) % p) + v % 2
  {
    var q, r := (v / 2) / p, (v / 2) % p;
    DivMod(v / 2, p);
    assert v == 2 * (q * p + r) + v % 2;
    assert 2 * (q * p) == (2 * p) * q;
    assert v == (2 * p) * q + (2 * r + v % 2);
    assert 0 <= 2 * r + v % 2 < 2 * p;
    ModUnique(v, 2 * p, q, 2 * r + v % 2);
  }

  lemma MulAtLeast(n: int, d: int)
    requires n >= 0 && d >= 1
    ensures n * d >= n
  {
    var e := d - 1;
    assert n * e >= 0;
    assert n * d == n * e + n;
  }

  /** Quotient and remainder are unique. */
  lemma EuclidUnique(n: int, q: int, r: int, q': int, r': int)
    requires 0 <= r < n && 0 <= r' < n
    requires n * q + r == n * q' + r'
    ensures q == q' && r == r'
  {
    assert n * (q - q') == n * q - n * q';
    assert n * (q' - q) == n * q' - n * q;
    if q > q' {
      MulAtLeast(n, q - q');
    } else if q < q' {
      MulAtLeast(n, q' - q);
    }
  }

  lemma DivMod(v: int, n: int)
    requires n >= 1
    ensures v == n * (v / n) + v % n && 0 <= v % n < n
  {
  }

  lemma ModUnique(v: int, n: int, q: int, r: int)
    requires n >= 1 && v == n * q + r && 0 <= r < n
    ensures v % n == r && v / n == q
  {
    DivMod(v, n);
    EuclidUnique(n, q, r, v / n, v % n);
  }

  lemma Halves(x: nat, m: nat)
    ensures (2 * m + 1) / 2 == m && (2 * m + 1) % 2 == 1
    ensures (2 * m) / 2 == m && (2 * m) % 2 == 0
    ensures x == 2 * (x / 2) + x % 2
  {
  }

  /** `v & (2^k - 1)` is the remainder modulo 2^k. */
  lemma {:induction false} AndLowMask(v: nat, k: nat)
    ensures And(v, Pow2(k) - 1) == v % Pow2(k)
    decreases k
  {
    if k > 0 && v > 0 {
      var p := Pow2(k - 1);
      AndLowMask(v / 2, k - 1);
      ModDouble(v, p);
      var mask := 2 * (p - 1) + 1;
      Halves(v, p - 1);
      assert And(v, mask) == 2 * And(v / 2, p - 1) + (if v % 2 == 1 then 1 else 0);
    } else if k == 0 {
      assert Pow2(0) == 1;
    } else {
      assert And(0, Pow2(k) - 1) == 0;
      ModUnique(0, Pow2(k), 0, 0);
    }
  }

  lemma {:induction false} AndHighMask(v: nat, k: nat, w: nat)
    requires k <= w && v < Pow2(w)
    ensures Pow2(k) <= Pow2(w)
    ensures And(v, Pow2(w) - Pow2(k)) == v - v % Pow2(k)
    decreases k, w
  {
    Pow2Monotone(k, w);
    if k == 0 {
      AndLowMask(v, w);
      ModUnique(v, Pow2(w), 0, v);
    } else {
      var p, t := Pow2(k - 1), Pow2(w - 1);
      Halves(v, 0);
      AndHighMask(v / 2, k - 1, w - 1);
      HighStep(v, p, t);
    }
  }

  lemma HighStep(v: nat, p: nat, t: nat)
    requires 1 <= p <= t && And(v / 2, t - p) == v / 2 - (v / 2) % p
    ensures And(v, 2 * (t - p)) == v - v % (2 * p)
  {
    ModDouble(v, p);
    Halves(v, 0);
    AndEvenMask(v, t - p);
  }

  lemma AndEvenMask(v: nat, m: nat)
    ensures And(v, 2 * m) == 2 * And(v / 2, m)
  {
    Halves(v, m);
    if v > 0 && m == 0 {
      assert And(v, 0) == 0 && And(v / 2, 0) == 0;
    } else if v == 0 {
      assert And(0, 2 * m) == 0 && And(0, m) == 0;
    } else {
      var e := 2 * m;
      assert e > 0 && e / 2 == m && e % 2 == 0;
    }
  }

  lemma Pow2Of32()
    ensures Pow2(32) == U32
  {
    assert Pow2(8) == 0x100;
    assert Pow2(16) == 0x1_0000;
    assert Pow2(24) == 0x100_0000;
  }

  lemma {:induction false} Pow2Monotone(j: nat, k: nat)
    requires j <= k
    ensures Pow2(j) <= Pow2(k)
    decreases k
  {
    if j < k {
      Pow2Monotone(j, k - 1);
    }
  }

  /** `v & ~(2^k - 1)` on uint32_t clears the remainder modulo 2^k. */
  lemma AndNotMask(v: nat, k: nat)
    requires v < U32 && k <= 31
    ensures Pow2(k) <= U32
    ensures And(v, Not32(Pow2(k) - 1)) == v - v % Pow2(k)
  {
    Pow2Of32();
    Pow2Monotone(k, 32);
    AndHighMask(v, k, 32);
  }

  // ---- The alignment macros, rtos/os_men.h ----

  ghost predicate IsAlignment(a: nat) {
    exists k: nat :: k <= 31 && Pow2(k) == a
  }

  lemma AlignmentBound(a: nat)
    requires IsAlignment(a)
    ensures 1 <= a <= 0x8000_0000
  {
    var k: nat :| k <= 31 && Pow2(k) == a;
    Pow2Of32();
    Pow2Monotone(k, 31);
  }

  /** MEN_HIGH_ALIGED(v, align), the sum taken modulo 2^32. */
  function HighAligned(v: nat, align: nat): nat
    requires 1 <= align <= U32
  {
    And((v + (align - 1)) % U32, Not32(align - 1))
  }

  /** MEN_LOW_ALIGED(v, align). */
  function LowAligned(v: nat, align: nat): nat
    requires 1 <= align <= U32
  {
    And(v, Not32(align - 1))
  }

  /** MEN_LOW_ALIGED gives the greatest multiple of `align` not above `v`. */
  lemma LowAlignedIsGreatest(v: nat, align: nat)
    requires IsAlignment(align) && v < U32
    ensures 1 <= align <= U32
    ensures LowAligned(v, align) == v - v % align
    ensures LowAligned(v, align) % align == 0 && LowAligned(v, align) <= v
    ensures forall m: nat :: m % align == 0 && m <= v ==> m <= LowAligned(v, align)
  {
    AlignmentBound(align);
    var k: nat :| k <= 31 && Pow2(k) == align;
    AndNotMask(v, k);
    var low := v - v % align;
    DivMod(v, align);
    MultipleMod(align, v / align);
    forall m: nat | m % align == 0 && m <= v
      ensures m <= low
    {
      MultipleBelow(m, v, align);
    }
  }

  lemma MultipleMod(n: nat, q: int)
    requires n >= 1
    ensures (n * q) % n == 0
  {
    ModUnique(n * q, n, q, 0);
  }

  lemma MultipleBelow(m: nat, v: nat, n: nat)
    requires n >= 1 && m % n == 0 && m <= v
    ensures m <= v - v % n
  {
    var i, j := m / n, v / n;
    DivMod(m, n);
    DivMod(v, n);
    if i > j {
      assert n * (i - j) == n * i - n * j;
      MulAtLeast(n, i - j);
    } else if i < j {
      assert n * (j - i) == n * j - n * i;
      MulAtLeast(n, j - i);
    }
  }

  lemma SumOfMultiples(x: int, y: int, n: nat)
    requires n >= 1 && x % n == 0 && y % n == 0
    ensures (x + y) % n == 0 && (x - y) % n == 0
  {
    var i, j := x / n, y / n;
    DivMod(x, n);
    DivMod(y, n);
    assert x + y == n * (i + j) && x - y == n * (i - j);
    MultipleMod(n, i + j);
    MultipleMod(n, i - j);
  }

  /** Two multiples less than `n` apart are ordered as stated. */
  lemma MultipleGap(m: nat, h: nat, n: nat)
    requires n >= 1 && m % n == 0 && h % n == 0 && h < m + n
    ensures h <= m
  {
    var i, j := m / n, h / n;
    DivMod(m, n);
    DivMod(h, n);
    if j > i {
      assert n * (j - i) == n * j - n * i;
      MulAtLeast(n, j - i);
    } else if j < i {
      assert n * (i - j) == n * i - n * j;
      MulAtLeast(n, i - j);
    }
  }

  /** MEN_HIGH_ALIGED gives the least multiple of `align` not below `v`,
      exactly when the sum inside the macro does not wrap. */
  lemma HighAlignedIsLeast(v: nat, align: nat)
    requires IsAlignment(align) && v < U32
    ensures 1 <= align <= U32
    ensures HighAligned(v, align) % align == 0
    ensures v + (align - 1) < U32 ==>
              && v <= HighAligned(v, align) < v + align
              && forall m: nat :: m % align == 0 && v <= m ==> HighAligned(v, align) <= m
    ensures v + (align - 1) >= U32 ==> HighAligned(v, align) < v
  {
    AlignmentBound(align);
    var s := (v + (align - 1)) % U32;
    LowAlignedIsGreatest(s, align);
    assert HighAligned(v, align) == s - s % align;
    DivMod(s, align);
    if v + (align - 1) < U32 {
      assert s == v + (align - 1);
      HighAmongMultiples(v, s - s % align, align);
    } else {
      assert s == v + (align - 1) - U32;
    }
  }

  lemma HighAmongMultiples(v: nat, high: nat, n: nat)
    requires n >= 1 && high % n == 0 && v <= high < v + n
    ensures forall m: nat :: m % n == 0 && v <= m ==> high <= m
  {
    forall m: nat | m % n == 0 && v <= m
      ensures high <= m
    {
      MultipleGap(m, high, n);
    }
  }
}
