/** Powers of two and the kernel's two integer logarithms. */
module Arith {

  function Pow2(n: nat): (r: nat)
    ensures r >= 1
  {
    if n == 0 then 1 else 2 * Pow2(n - 1)
  }

  predicate IsPow2(x: nat)
  {
    x > 0 && x == Pow2(Log2(x))
  }

  /** `ilog2`: the position of the highest set bit. */
  function Log2(x: nat): nat
    requires x > 0
  {
    if x == 1 then 0 else 1 + Log2(x / 2)
  }

  /** `order_base_2`: the logarithm of `x` rounded up to a power of two. */
  function CeilLog2(x: nat): nat
    requires x > 0
  {
    if x == 1 then 0 else 1 + Log2(x - 1)
  }

  function Min(a: nat, b: nat): (r: nat)
    ensures r == a || r == b
    ensures r <= a && r <= b
  {
    if a < b then a else b
  }

  lemma {:induction false} Log2Bounds(x: nat)
    requires x > 0
    ensures Pow2(Log2(x)) <= x < Pow2(Log2(x) + 1)
  {
    if x > 1 {
      Log2Bounds(x / 2);
    }
  }

  lemma CeilLog2Bounds(x: nat)
    requires x > 0
    ensures x <= Pow2(CeilLog2(x)) < 2 * x
  {
    if x > 1 {
      Log2Bounds(x - 1);
    }
  }

  lemma {:induction false} Pow2Monotone(a: nat, b: nat)
    requires a <= b
    ensures Pow2(a) <= Pow2(b)
    ensures a < b ==> 2 * Pow2(a) <= Pow2(b)
    decreases b
  {
    if a < b {
      Pow2Monotone(a, b - 1);
    }
  }

  /** `x >> k` on a non-negative number. */
  function Shr(x: nat, k: nat): (r: nat)
    ensures r <= x
    decreases k
  {
    if k == 0 then x else Shr(x / 2, k - 1)
  }

  lemma {:induction false} ShrAtLeast(x: nat, n: nat, k: nat)
    requires k <= n && Pow2(n) <= x
    ensures Pow2(n - k) <= Shr(x, k)
    decreases k
  {
    if k > 0 {
      ShrAtLeast(x / 2, n - 1, k - 1);
    }
  }

  lemma {:induction false} ShrPow2(n: nat, k: nat)
    requires k <= n
    ensures Shr(Pow2(n), k) == Pow2(n - k)
  {
    if k > 0 {
      ShrPow2(n - 1, k - 1);
    }
  }

  lemma {:induction false} ShrMonotone(x: nat, j: nat, k: nat)
    requires j <= k
    ensures Shr(x, k) <= Shr(x, j)
    decreases k
  {
    if j > 0 {
      ShrMonotone(x / 2, j - 1, k - 1);
    }
  }

  lemma Log2Monotone(x: nat, y: nat)
    requires 0 < x <= y
    ensures Log2(x) <= Log2(y)
  {
    Log2Bounds(x);
    Log2Bounds(y);
    if Log2(y) < Log2(x) {
      Pow2Monotone(Log2(y) + 1, Log2(x));
    }
  }

  // ----- quotient and remainder

  lemma MulAtLeast(d: int, m: int)
    requires d >= 1 && m >= 0
    ensures d * m >= m
  {
    assert d * m == (d - 1) * m + m;
    assert (d - 1) * m >= 0;
  }

  lemma DivModUnique(a: int, m: int, q: int, r: int)
    requires m > 0 && 0 <= r < m && a == q * m + r
    ensures a % m == r && a / m == q
  {
    var q', r' := a / m, a % m;
    assert a == q' * m + r';
    if q > q' {
      MulAtLeast(q - q', m);
    } else if q < q' {
      MulAtLeast(q' - q, m);
    }
  }

  lemma ModStep(a: nat, m: nat)
    requires m > 0
    ensures (a + m) % m == a % m && (a + m) / m == a / m + 1
  {
    assert (a / m + 1) * m == (a / m) * m + m;
    DivModUnique(a + m, m, a / m + 1, a % m);
  }

  /** The start of the block of `m` that holds `a`. */
  function BlockStart(a: nat, m: nat): (r: nat)
    requires m > 0
    ensures r <= a < r + m && r == a - a % m
  {
    assert a == (a / m) * m + a % m;
    assert (a / m) * m >= 0;
    a - a % m
  }

  /** Moving inside one block of `m` shifts the remainder; reaching its end clears it. */
  lemma ModWithin(a: nat, d: nat, m: nat)
    requires m > 0 && a % m + d <= m
    ensures a % m + d < m ==> (a + d) % m == a % m + d && (a + d) / m == a / m
    ensures a % m + d == m ==> (a + d) % m == 0 && (a + d) / m == a / m + 1
  {
    assert a == (a / m) * m + a % m;
    if a % m + d < m {
      DivModUnique(a + d, m, a / m, a % m + d);
    } else {
      assert (a / m + 1) * m == (a / m) * m + m;
      DivModUnique(a + d, m, a / m + 1, 0);
    }
  }

  lemma ModHalf(a: nat, p: nat)
    requires p > 0
    ensures a % (2 * p) == a % 2 + 2 * ((a / 2) % p)
  {
    var q := (a / 2) / p;
    assert a / 2 == q * p + (a / 2) % p;
    assert a == q * (2 * p) + (a % 2 + 2 * ((a / 2) % p));
    DivModUnique(a, 2 * p, q, a % 2 + 2 * ((a / 2) % p));
  }

  // ----- bits of unbounded numbers

  function BitAnd(a: nat, b: nat): nat
    decreases a
  {
    if a == 0 then 0 else (if a % 2 == 1 && b % 2 == 1 then 1 else 0) + 2 * BitAnd(a / 2, b / 2)
  }

  function BitOr(a: nat, b: nat): nat
    decreases a + b
  {
    if a == 0 then b else if b == 0 then a
    else (if a % 2 == 1 || b % 2 == 1 then 1 else 0) + 2 * BitOr(a / 2, b / 2)
  }

  /** `hweight32`: the number of set bits. */
  function Weight(n: nat): nat
  {
    if n == 0 then 0 else n % 2 + Weight(n / 2)
  }

  lemma {:induction false} WeightPositive(n: nat)
    requires n > 0
    ensures Weight(n) > 0
  {
    if n % 2 == 0 {
      WeightPositive(n / 2);
    }
  }

  lemma {:induction false} WeightOne(n: nat)
    requires Weight(n) == 1
    ensures n > 0 && n == Pow2(Log2(n))
  {
    if n > 1 {
      if n % 2 == 1 {
        WeightPositive(n / 2);
      } else {
        WeightOne(n / 2);
      }
    }
  }

  /** Masking with a power of two minus one is the remainder. */
  lemma {:induction false} MaskIsMod(a: nat, k: nat)
    ensures BitAnd(a, Pow2(k) - 1) == a % Pow2(k)
    decreases k
  {
    if a == 0 {
      DivModUnique(0, Pow2(k), 0, 0);
    } else if k == 0 {
      AndZero(a);
    } else {
      MaskIsMod(a / 2, k - 1);
      MaskStep(a, Pow2(k - 1));
    }
  }

  lemma MaskStep(a: nat, p: nat)
    requires a > 0 && p > 0 && BitAnd(a / 2, p - 1) == (a / 2) % p
    ensures BitAnd(a, 2 * p - 1) == a % (2 * p)
  {
    assert (2 * p - 1) / 2 == p - 1 && (2 * p - 1) % 2 == 1;
    ModHalf(a, p);
  }

  lemma {:induction false} AndAtMost(a: nat, b: nat)
    ensures BitAnd(a, b) <= a
    decreases a
  {
    if a > 0 {
      AndAtMost(a / 2, b / 2);
    }
  }

  lemma {:induction false} AndCommutes(a: nat, b: nat)
    ensures BitAnd(a, b) == BitAnd(b, a)
    decreases a
  {
    if a == 0 {
      AndZero(b);
    } else if b == 0 {
      AndZero(a);
    } else {
      AndCommutes(a / 2, b / 2);
    }
  }

  /** A number is unchanged by a mask of ones that is wide enough. */
  lemma AndOnes(ones: nat, x: nat, k: nat)
    requires ones == Pow2(k) - 1 && x <= ones
    ensures BitAnd(ones, x) == x
  {
    AndCommutes(ones, x);
    MaskIsMod(x, k);
    DivModUnique(x, Pow2(k), 0, x);
  }

  lemma Pow2Byte()
    ensures Pow2(8) == 256
  {
    assert Pow2(4) == 16;
  }

  lemma {:induction false} AndZero(a: nat)
    ensures BitAnd(a, 0) == 0
  {
    if a > 0 {
      AndZero(a / 2);
    }
  }

  /** Joining a shifted number with a number below the shift is addition. */
  lemma {:induction false} OrIsAdd(p: nat, o: nat, k: nat)
    requires o < Pow2(k)
    ensures BitOr(p * Pow2(k), o) == p * Pow2(k) + o
    decreases k
  {
    if k > 0 && p > 0 && o > 0 {
      assert p * Pow2(k) == 2 * (p * Pow2(k - 1));
      assert p * Pow2(k - 1) > 0 by { MulAtLeast(p, Pow2(k - 1)); }
      OrIsAdd(p, o / 2, k - 1);
    } else if p == 0 {
      assert p * Pow2(k) == 0;
    }
  }
}
