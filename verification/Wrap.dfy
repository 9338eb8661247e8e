/** Wrapping 16-bit counters, and their use as indices into a ring whose size is a power of two. */
module Wrap {

  const WRAP16 := 0x1_0000

  function Pow2(k: nat): (p: nat)
    ensures p > 0
  {
    if k == 0 then 1 else 2 * Pow2(k - 1)
  }

  /** The k low bits of a: what masking with 2^k - 1 keeps. */
  function LowBits(a: nat, k: nat): nat {
    if k == 0 then 0 else a % 2 + 2 * LowBits(a / 2, k - 1)
  }

  lemma {:induction false} LowBitsIsMod(a: nat, k: nat)
    ensures LowBits(a, k) == a % Pow2(k)
  {
    if k > 0 {
      LowBitsIsMod(a / 2, k - 1);
      HalfMod(a, Pow2(k - 1));
    }
  }

  lemma HalfMod(a: nat, p: nat)
    requires p > 0
    ensures a % (2 * p) == a % 2 + 2 * ((a / 2) % p)
  {
    var h := a / 2;
    var q, r := h / p, h % p;
    assert h == p * q + r;
    Regroups(2, p, q);
    DivisionIsUnique(a, 2 * p, q, a % 2 + 2 * r);
  }

  lemma Distributes(n: int, a: int, b: int)
    ensures n * (a + b) == n * a + n * b
  {
  }

  lemma Regroups(a: int, b: int, c: int)
    ensures (a * b) * c == a * (b * c)
  {
  }

  lemma MulMonotonic(n: nat, a: int, b: int)
    ensures a < b ==> n * a + n <= n * b
  {
    if a < b {
      var more: nat := b - a - 1;
      Distributes(n, a + 1, more);
      Distributes(n, a, 1);
      assert n * more >= 0;
    }
  }

  lemma DivisionIsUnique(a: nat, n: nat, q: nat, r: nat)
    requires 0 <= r < n && a == n * q + r
    ensures a % n == r && a / n == q
  {
    assert a == n * (a / n) + a % n;
    MulMonotonic(n, q, a / n);
    MulMonotonic(n, a / n, q);
  }

  lemma {:induction false} Pow2Splits(j: nat, k: nat)
    ensures Pow2(j + k) == Pow2(j) * Pow2(k)
  {
    if j > 0 {
      Pow2Splits(j - 1, k);
      Regroups(2, Pow2(j - 1), Pow2(k));
    }
  }

  lemma Pow2Of16()
    ensures Pow2(16) == WRAP16
  {
    assert Pow2(4) == 16;
    Pow2Splits(4, 4);
    Pow2Splits(8, 8);
  }

  lemma Regroup(s: nat, m: nat, q: nat, t: nat)
    ensures (s * m) * q + s * t == s * (m * q + t)
  {
    Regroups(s, m, q);
    Distributes(s, m * q, t);
  }

  lemma ModOfMultiple(x: nat, size: nat, m: nat)
    requires size > 0 && m > 0
    ensures size * m > 0 && (x % (size * m)) % size == x % size
  {
    var n := size * m;
    assert n > 0 by { MulMonotonic(size, 0, m); }
    var q, r := x / n, x % n;
    assert x == n * q + r;
    assert r == size * (r / size) + r % size;
    Regroup(size, m, q, r / size);
    DivisionIsUnique(x, size, m * q + r / size, r % size);
  }

  /** A counter may wrap at 16 bits: its slot in a ring of 2^k entries stays the same. */
  lemma WrapKeepsSlot(x: nat, k: nat)
    requires k <= 15
    ensures LowBits(x % WRAP16, k) == x % Pow2(k)
  {
    LowBitsIsMod(x % WRAP16, k);
    Pow2Splits(k, 16 - k);
    Pow2Of16();
    ModOfMultiple(x, Pow2(k), Pow2(16 - k));
  }

  lemma {:induction false} Pow2AtMost(k: nat)
    requires k <= 15
    ensures Pow2(k) <= 0x8000
  {
    Pow2Splits(k, 15 - k);
    Pow2Splits(7, 8);
    MulMonotonic(Pow2(k), 0, Pow2(15 - k));
    assert Pow2(15) == 0x8000;
    if Pow2(15 - k) > 1 {
      MulMonotonic(Pow2(k), 1, Pow2(15 - k));
    }
  }

  /** Fewer than `size` consecutive counters have different slots. */
  lemma SlotsApart(x: nat, y: nat, size: nat)
    requires x < y < x + size
    ensures x % size != y % size
  {
    var p, r := x / size, x % size + (y - x);
    assert x == size * p + x % size;
    if r < size {
      DivisionIsUnique(y, size, p, r);
    } else {
      Distributes(size, p, 1);
      DivisionIsUnique(y, size, p + 1, r - size);
    }
  }

  /** Counting wraps as counting does. */
  lemma WrapNext(x: nat)
    ensures (x % WRAP16 + 1) % WRAP16 == (x + 1) % WRAP16
  {
    var q, r := x / WRAP16, x % WRAP16;
    assert x == WRAP16 * q + r;
    if r + 1 < WRAP16 {
      DivisionIsUnique(x + 1, WRAP16, q, r + 1);
    } else {
      DivisionIsUnique(x + 1, WRAP16, q + 1, 0);
    }
  }

  lemma {:induction false} WrapAdds(x: nat, i: nat)
    ensures (x % WRAP16 + i) % WRAP16 == (x + i) % WRAP16
  {
    if i > 0 {
      WrapAdds(x, i - 1);
      WrapNext(x + i - 1);
      WrapNext(x % WRAP16 + i - 1);
    }
  }

  /** Two counters less than a wrap apart are told apart by their wrapped values. */
  lemma WrappedEqual(x: nat, y: nat)
    requires x <= y < x + WRAP16
    ensures x % WRAP16 == y % WRAP16 <==> x == y
  {
    if x < y {
      SlotsApart(x, y, WRAP16);
    }
  }
}
