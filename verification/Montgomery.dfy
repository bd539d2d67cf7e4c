/** The reader's side of the Montgomery form: word-by-word reduction undoes
    exactly what sign() did, and needs n0inv() to be what it is. */
module Montgomery {
  import opened Common
  import opened Arithmetic
  import opened Limbs
  import opened PublicKey

  /** The multiple of n one reduction step adds to clear the low word. */
  function Quotient(t: nat, w: word): word {
    (t % WORD) * w % WORD
  }

  function Step(t: nat, n: nat, w: word): nat {
    (t + Quotient(t, w) * n) / WORD
  }

  function Reduce(t: nat, n: nat, w: word, k: nat): nat
    decreases k
  {
    if k == 0 then t else Reduce(Step(t, n, w), n, w, k - 1)
  }

  /** Every step divides exactly. */
  lemma StepIsExact(t: nat, n: nat, w: word)
    requires (n * w + 1) % WORD == 0
    ensures (t + Quotient(t, w) * n) % WORD == 0
    ensures WORD * Step(t, n, w) == t + Quotient(t, w) * n
  {
    var t0, q, e := t % WORD, t / WORD, (n * w + 1) / WORD;
    var c, m := t0 * w / WORD, Quotient(t, w);
    ClearLowWord(t, n, w, t0, q, e, c, m);
    MultipleMod(WORD, q + t0 * e - c * n);
  }

  lemma ClearLowWord(t: int, n: int, w: int, t0: int, q: int, e: int, c: int, m: int)
    requires t == WORD * q + t0 && n * w + 1 == WORD * e && t0 * w == WORD * c + m
    ensures t + m * n == WORD * (q + t0 * e - c * n)
  {
    assert m * n == t0 * w * n - WORD * c * n;
    assert t0 * w * n == t0 * (n * w);
    assert t0 * (n * w) == t0 * (WORD * e - 1);
    assert t0 * (WORD * e) == WORD * (t0 * e);
    assert WORD * c * n == WORD * (c * n);
  }

  /** A value below n stays below n: no final subtraction is ever needed. */
  lemma StepStaysBelow(t: nat, n: nat, w: word)
    requires t < n
    ensures Step(t, n, w) < n
  {
    MulMonotonic(n, Quotient(t, w), WORD - 1);
  }

  lemma {:induction false} ReduceStaysBelow(t: nat, n: nat, w: word, k: nat)
    requires t < n
    ensures Reduce(t, n, w, k) < n
    decreases k
  {
    if k > 0 {
      StepStaysBelow(t, n, w);
      ReduceStaysBelow(Step(t, n, w), n, w, k - 1);
    }
  }

  lemma DivideStep(t: int, t1: int, m: int, n: int, r: int, radix: int, e1: int)
    requires WORD * t1 == t + m * n && r * radix == t1 + n * e1
    ensures r * (WORD * radix) == t + n * (m + WORD * e1)
  {
    assert r * (WORD * radix) == WORD * (r * radix);
    assert n * (m + WORD * e1) == m * n + WORD * (n * e1);
  }

  /** k steps divide by 2^(32 k) modulo n. */
  lemma {:induction false} ReduceDivides(t: nat, n: nat, w: word, k: nat) returns (e: int)
    requires (n * w + 1) % WORD == 0
    ensures Reduce(t, n, w, k) * Radix(k) == t + n * e
    decreases k
  {
    if k == 0 {
      e := 0;
    } else {
      var t1 := Step(t, n, w);
      StepIsExact(t, n, w);
      var e1 := ReduceDivides(t1, n, w, k - 1);
      DivideStep(t, t1, Quotient(t, w), n, Reduce(t1, n, w, k - 1), Radix(k - 1), e1);
      e := Quotient(t, w) + WORD * e1;
    }
  }

  /** If r * R and sig * R agree modulo an odd n and r < n, then r is sig mod n. */
  lemma CancelRadix(sig: nat, n: nat, k: nat, r: nat, t: nat, q: int, e: int)
    requires n % 2 == 1 && r < n
    requires r * Radix(k) == t + n * e && sig * Radix(k) == n * q + t
    ensures r == sig % n
  {
    assert n * (q - e) == n * q - n * e;
    assert (sig - r) * Radix(k) == n * (q - e);
    var d := OddCancelRadix(n, k, sig - r, q - e);
    DivModUnique(sig, n, d, r);
  }

  /** For an odd n, reducing the emitted value gives back the signature modulo n. */
  lemma ReduceRecoversSignature(sig: nat, n: nat, k: nat)
    requires n % 2 == 1
    ensures Reduce(MontgomeryForm(sig, n, k), n, N0Inv(n), k) == sig % n
  {
    var t, w := MontgomeryForm(sig, n, k), N0Inv(n);
    N0InvCorrect(n);
    ReduceStaysBelow(t, n, w, k);
    var e := ReduceDivides(t, n, w, k);
    var scaled := sig * Radix(k);
    DivModIdentity(scaled, n);
    CancelRadix(sig, n, k, Reduce(t, n, w, k), t, scaled / n, e);
  }

  /** An even modulus loses signatures: n/2 and 0 are emitted alike. */
  lemma EvenModulusCollides(n: nat, k: nat)
    requires n % 2 == 0 && n > 0 && k > 0
    ensures MontgomeryForm(n / 2, n, k) == MontgomeryForm(0, n, k)
  {
    var h := n / 2;
    assert Radix(k) == 2 * (WORD / 2 * Radix(k - 1));
    assert h * (2 * (WORD / 2 * Radix(k - 1))) == (2 * h) * (WORD / 2 * Radix(k - 1));
    MultipleMod(n, WORD / 2 * Radix(k - 1));
    MultipleMod(n, 0);
  }

  ghost predicate RecoversAll(n: nat, k: nat)
    requires n > 0
  {
    forall sig: nat :: Reduce(MontgomeryForm(sig, n, k), n, N0Inv(n), k) == sig % n
  }

  ghost predicate InjectiveBelow(n: nat, k: nat)
    requires n > 0
  {
    forall a: nat, b: nat | a < n && b < n && MontgomeryForm(a, n, k) == MontgomeryForm(b, n, k) :: a == b
  }

  lemma RecoveryImpliesInjectivity(n: nat, k: nat)
    requires n > 0 && RecoversAll(n, k)
    ensures InjectiveBelow(n, k)
  {
    forall a: nat, b: nat | a < n && b < n && MontgomeryForm(a, n, k) == MontgomeryForm(b, n, k) ensures a == b {
      assert Reduce(MontgomeryForm(a, n, k), n, N0Inv(n), k) == a % n;
      assert Reduce(MontgomeryForm(b, n, k), n, N0Inv(n), k) == b % n;
      DivModUnique(a, n, 0, a);
      DivModUnique(b, n, 0, b);
    }
  }

  /** The Montgomery form keeps every signature exactly when the modulus is odd. */
  lemma OddModulusIffLossless(n: nat, k: nat)
    requires n > 0 && k > 0
    ensures RecoversAll(n, k) <==> n % 2 == 1
    ensures InjectiveBelow(n, k) <==> n % 2 == 1
  {
    if n % 2 == 1 {
      forall sig: nat ensures Reduce(MontgomeryForm(sig, n, k), n, N0Inv(n), k) == sig % n {
        ReduceRecoversSignature(sig, n, k);
      }
    } else {
      EvenModulusCollides(n, k);
      assert !InjectiveBelow(n, k);
    }
    if RecoversAll(n, k) {
      RecoveryImpliesInjectivity(n, k);
    }
  }

  /** Different signatures below an odd n that fits the limbs are stored as
      different limb arrays, and the limbs determine the emitted value. */
  lemma StoredSignaturesDiffer(a: nat, b: nat, n: nat, k: nat)
    requires n % 2 == 1 && NWords(n) <= k && a < n && b < n && a != b
    ensures LowLimbs(MontgomeryForm(a, n, k), k) != LowLimbs(MontgomeryForm(b, n, k), k)
  {
    if k == 0 {
      NWordsIsLeast(n, k);
    } else {
      OddModulusIffLossless(n, k);
      NWordsIsLeast(n, k);
      NWordsIsLeast(MontgomeryForm(a, n, k), k);
      NWordsIsLeast(MontgomeryForm(b, n, k), k);
    }
  }
}
