/** Exact integer facts behind the key arithmetic: division with remainder,
    powers of two, and cancelling a power of two modulo an odd number. */
module Arithmetic {
  import opened Common

  function Pow2(j: nat): (p: nat)
    ensures p > 0
  {
    if j == 0 then 1 else 2 * Pow2(j - 1)
  }

  /** 2^(32 k), the weight of limb k. */
  function Radix(k: nat): (p: nat)
    ensures p > 0
  {
    if k == 0 then 1 else WORD * Radix(k - 1)
  }

  lemma {:induction false} Pow2Add(a: nat, b: nat)
    ensures Pow2(a + b) == Pow2(a) * Pow2(b)
  {
    if a > 0 {
      Pow2Add(a - 1, b);
      assert Pow2(a + b) == 2 * Pow2(a - 1 + b);
      assert 2 * (Pow2(a - 1) * Pow2(b)) == (2 * Pow2(a - 1)) * Pow2(b);
    }
  }

  lemma Pow2OfWord()
    ensures Pow2(32) == WORD
  {
    Pow2Add(8, 8);
    Pow2Add(16, 16);
    assert Pow2(8) == 0x100;
  }

  lemma {:induction false} RadixIsPow2(k: nat)
    ensures Radix(k) == Pow2(32 * k)
  {
    if k > 0 {
      RadixIsPow2(k - 1);
      Pow2Add(32, 32 * (k - 1));
      Pow2OfWord();
    }
  }

  lemma MulMonotonic(m: nat, x: int, y: int)
    requires x <= y
    ensures m * x <= m * y
  {
  }

  /** A multiple of m that lies within one m of zero is zero. */
  lemma SmallMultiple(m: int, c: int)
    requires m > 0 && -m < m * c < m
    ensures c == 0
  {
    if c >= 1 {
      MulMonotonic(m, 1, c);
    } else if c <= -1 {
      MulMonotonic(m, c, -1);
    }
  }

  lemma DivModIdentity(x: int, m: int)
    requires m > 0
    ensures x == m * (x / m) + x % m
  {
  }

  /** Quotient and remainder are determined by the defining equation. */
  lemma DivModUnique(n: int, m: int, q: int, r: int)
    requires m > 0 && n == m * q + r && 0 <= r < m
    ensures n / m == q && n % m == r
  {
    var q', r' := n / m, n % m;
    assert m * (q - q') == r' - r;
    SmallMultiple(m, q - q');
  }

  lemma MultipleMod(m: int, c: int)
    requires m > 0
    ensures (m * c) % m == 0
  {
    DivModUnique(m * c, m, c, 0);
  }

  /** An odd divisor of 2x divides x. */
  lemma OddCancelTwo(n: nat, x: int, c: int) returns (d: int)
    requires n % 2 == 1 && 2 * x == n * c
    ensures x == n * d
  {
    var h := n / 2;
    assert n == 2 * h + 1;
    assert n * c == 2 * (h * c) + c by {
      assert (2 * h + 1) * c == 2 * (h * c) + c;
    }
    d := x - h * c;
    assert c == 2 * d;
    assert n * (2 * d) == 2 * (n * d);
  }

  lemma {:induction false} OddCancelPow2(n: nat, j: nat, x: int, c: int) returns (d: int)
    requires n % 2 == 1 && Pow2(j) * x == n * c
    ensures x == n * d
    decreases j
  {
    if j == 0 {
      d := c;
    } else {
      assert 2 * (Pow2(j - 1) * x) == (2 * Pow2(j - 1)) * x;
      var e := OddCancelTwo(n, Pow2(j - 1) * x, c);
      d := OddCancelPow2(n, j - 1, x, e);
    }
  }

  /** An odd divisor of x * 2^(32 k) divides x. */
  lemma OddCancelRadix(n: nat, k: nat, x: int, c: int) returns (d: int)
    requires n % 2 == 1 && x * Radix(k) == n * c
    ensures x == n * d
  {
    RadixIsPow2(k);
    d := OddCancelPow2(n, 32 * k, x, c);
  }
}
