/** Little-endian limb arrays: what toArray stores for a number, and the number
    that a limb array stands for. */
module Limbs {
  import opened Common
  import opened Arithmetic

  /** The low `k` limbs of `n`, least significant first. */
  function LowLimbs(n: nat, k: nat): (ws: seq<word>)
    ensures |ws| == k
  {
    if k == 0 then [] else [n % WORD] + LowLimbs(n / WORD, k - 1)
  }

  /** The number a limb array denotes: the sum of ws[i] * 2^(32 i). */
  function Value(ws: seq<word>): nat
  {
    if ws == [] then 0 else ws[0] as int + WORD * Value(ws[1..])
  }

  /** Splitting off the lowest limb of both quotient and remainder. */
  lemma SplitLowLimb(n: nat, k: nat)
    ensures n / WORD / Radix(k) == n / Radix(k + 1)
    ensures n % Radix(k + 1) == WORD * (n / WORD % Radix(k)) + n % WORD
  {
    var r, q, d := Radix(k), n / WORD / Radix(k), n / WORD % Radix(k);
    assert WORD * (r * q + d) == (WORD * r) * q + WORD * d;
    DivModUnique(n, WORD * r, q, WORD * d + n % WORD);
  }

  /** Splitting off the next limb above the low k. */
  lemma SplitHighLimb(n: nat, k: nat)
    ensures n / Radix(k) / WORD == n / Radix(k + 1)
  {
    var r, a := Radix(k), n / Radix(k);
    var q, c, b := a / WORD, a % WORD, n % r;
    assert r * (WORD * q + c) == (WORD * r) * q + r * c;
    MulMonotonic(r, c, WORD - 1);
    MulMonotonic(r, 0, c);
    DivModUnique(n, WORD * r, q, r * c + b);
  }

  lemma {:induction false} LowLimbsAppend(n: nat, k: nat)
    ensures LowLimbs(n, k + 1) == LowLimbs(n, k) + [n / Radix(k) % WORD]
  {
    if k > 0 {
      LowLimbsAppend(n / WORD, k - 1);
      SplitLowLimb(n, k - 1);
    } else {
      assert LowLimbs(n / WORD, 0) == [];
    }
  }

  /** What k limbs keep of a number: exactly its residue modulo 2^(32 k). */
  lemma {:induction false} ValueOfLowLimbs(n: nat, k: nat)
    ensures Value(LowLimbs(n, k)) == n % Radix(k)
  {
    if k > 0 {
      ValueOfLowLimbs(n / WORD, k - 1);
      SplitLowLimb(n, k - 1);
      assert LowLimbs(n, k)[1..] == LowLimbs(n / WORD, k - 1);
    }
  }

  /** Limb arrays of one length denote different numbers when they differ. */
  lemma {:induction false} LowLimbsOfValue(ws: seq<word>)
    ensures Value(ws) < Radix(|ws|)
    ensures LowLimbs(Value(ws), |ws|) == ws
  {
    if ws != [] {
      LowLimbsOfValue(ws[1..]);
      var v := Value(ws[1..]);
      MulMonotonic(WORD, v + 1, Radix(|ws| - 1));
      DivModUnique(Value(ws), WORD, v, ws[0]);
    }
  }

  // ----- how many limbs a number needs -----

  /** BN_num_bits: the position of the highest set bit, counted from one. */
  function NumBits(n: nat): nat
  {
    if n == 0 then 0 else 1 + NumBits(n / 2)
  }

  lemma {:induction false} NumBitsIsLeast(n: nat, j: nat)
    ensures n < Pow2(j) <==> NumBits(n) <= j
    decreases j
  {
    if n != 0 && j > 0 {
      NumBitsIsLeast(n / 2, j - 1);
    }
  }
}
