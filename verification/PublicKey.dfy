/** The key arithmetic of the signer. The BIGNUM calls are exact integer
    operations; BN_mod_inverse is Euclid's algorithm. */
module PublicKey {
  import opened Common
  import opened Arithmetic
  import opened Limbs

  /** Number of words in R, the Montgomery radix. */
  const RWORDS: nat := 96

  /** A loaded key. `signer` is the raw RSA signature over a message, or None
      when the signing backend reports an error. */
  datatype Key = Key(modulus: nat, publicOnly: bool, signer: seq<byte> -> Option<nat>)

  // ----- nwords and toArray -----

  function NumBytes(n: nat): nat {
    (NumBits(n) + 7) / 8
  }

  function NWords(n: nat): nat {
    (NumBytes(n) + 3) / 4
  }

  /** nwords() is the least limb count that holds n, and toArray loses nothing
      exactly when it is given at least that many limbs. */
  lemma NWordsIsLeast(n: nat, k: nat)
    ensures n < Radix(k) <==> NWords(n) <= k
    ensures Value(LowLimbs(n, k)) == n <==> NWords(n) <= k
  {
    RadixIsPow2(k);
    NumBitsIsLeast(n, 32 * k);
    ValueOfLowLimbs(n, k);
  }

  /** Stores the low `nwords` limbs of `n` at dst[pos..], by repeated division. */
  method ToArray(dst: array<byte>, pos: nat, nwords: nat, n: nat)
    requires pos + 4 * nwords <= dst.Length
    modifies dst
    ensures dst[..] == WriteAt(old(dst[..]), pos, WordsBytes(LowLimbs(n, nwords)))
  {
    var rest := n;
    for i := 0 to nwords
      invariant rest == n / Radix(i)
      invariant dst[..] == WriteAt(old(dst[..]), pos, WordsBytes(LowLimbs(n, i)))
    {
      var limb := rest % WORD;
      ghost var before := dst[..];
      StoreWord(dst, pos + 4 * i, limb);
      LowLimbsAppend(n, i);
      WordsBytesAppend(LowLimbs(n, i), limb);
      WriteAtAppend(old(dst[..]), pos, WordsBytes(LowLimbs(n, i)), WordBytes(limb));
      SplitHighLimb(n, i);
      rest := rest / WORD;
    }
  }

  method ModToArray(key: Key, dst: array<byte>, pos: nat, nwords: nat)
    requires pos + 4 * nwords <= dst.Length
    modifies dst
    ensures dst[..] == WriteAt(old(dst[..]), pos, WordsBytes(LowLimbs(key.modulus, nwords)))
  {
    ToArray(dst, pos, nwords, key.modulus);
  }

  // ----- n0inv -----

  /** Extended Euclid: the greatest common divisor g of a and m with
      coefficients such that a * x + m * y == g. */
  function Euclid(a: nat, m: nat): (nat, int, int)
    decreases m
  {
    if m == 0 then (a, 1, 0)
    else var (g, x, y) := Euclid(m, a % m); (g, y, x - a / m * y)
  }

  predicate Combines(a: int, m: int, g: int, x: int, y: int) {
    a * x + m * y == g
  }

  predicate Factors(a: int, g: int, p: int) {
    a == g * p
  }

  /** One division step keeps the linear combination ... */
  lemma CombinationStep(a: nat, m: nat, g: int, x: int, y: int)
    requires m > 0 && Combines(m, a % m, g, x, y)
    ensures Combines(a, m, g, y, x - a / m * y)
  {
    var d, r := a / m, a % m;
    DivModIdentity(a, m);
    assert a * y == (m * d) * y + r * y;
    assert m * (x - d * y) == m * x - m * (d * y);
    assert (m * d) * y == m * (d * y);
  }

  /** ... and common divisors. */
  lemma DivisorStep(a: nat, m: nat, g: int, p: int, q: int)
    requires m > 0 && Factors(m, g, p) && Factors(a % m, g, q)
    ensures Factors(a, g, p * (a / m) + q)
  {
    var d := a / m;
    DivModIdentity(a, m);
    assert (g * p) * d == g * (p * d);
    assert g * (p * d + q) == g * (p * d) + g * q;
  }

  lemma {:induction false} EuclidCorrect(a: nat, m: nat) returns (p: nat, q: nat)
    ensures var (g, x, y) := Euclid(a, m);
      Combines(a, m, g, x, y) && Factors(a, g, p) && Factors(m, g, q)
    decreases m
  {
    if m == 0 {
      p, q := 1, 0;
    } else {
      var (g, x, y) := Euclid(m, a % m);
      var p', q' := EuclidCorrect(m, a % m);
      CombinationStep(a, m, g, x, y);
      DivisorStep(a, m, g, p', q');
      p, q := p' * (a / m) + q', p';
    }
  }

  /** BN_mod_inverse: the inverse of a modulo m, or None when there is none. */
  function ModInverse(a: nat, m: nat): Option<nat>
    requires m > 0
  {
    var (g, x, _) := Euclid(a, m);
    if g == 1 then Some(x % m) else None
  }

  /** 0 - x on a 64-bit unsigned word, cut to 32 bits. */
  function Negate(x: int): word {
    (0 - x) % 0x1_0000_0000_0000_0000 % WORD
  }

  lemma NegateWraps(x: int)
    requires 0 < x < WORD
    ensures Negate(x) == WORD - x
  {
    DivModUnique(0 - x, 0x1_0000_0000_0000_0000, -1, 0x1_0000_0000_0000_0000 - x);
    DivModUnique(0x1_0000_0000_0000_0000 - x, WORD, WORD - 1, WORD - x);
  }

  /** -1 / n modulo 2^32. The destination of a failed BN_mod_inverse keeps its
      initial zero. */
  function N0Inv(n: nat): word {
    Negate(match ModInverse(n % WORD, WORD) case Some(v) => v case None => 0)
  }

  lemma EvenProduct(a: int, b: int)
    requires a % 2 == 0
    ensures a * b % 2 == 0
  {
    var h := a / 2;
    assert a * b == 2 * (h * b) by { assert a == 2 * h; }
  }

  lemma OddHasOddFactors(g: int, p: int)
    requires g * p % 2 == 1
    ensures g % 2 == 1
  {
    if g % 2 == 0 {
      EvenProduct(g, p);
    }
  }

  /** Reducing a coefficient modulo m changes the combination by a multiple of m. */
  lemma ReduceCoefficient(a: int, u: int, m: int)
    requires m > 0
    ensures a * u == a * (u % m) + m * (a * (u / m))
  {
    var h, x := u / m, u % m;
    assert u == m * h + x;
    assert a * (m * h) == m * (a * h);
  }

  lemma OddCoprimeToWord(a: nat)
    requires a % 2 == 1
    ensures Euclid(a, WORD).0 == 1
  {
    var (g, u, v) := Euclid(a, WORD);
    var p, q := EuclidCorrect(a, WORD);
    OddHasOddFactors(g, p);
    Pow2OfWord();
    var d := OddCancelPow2(g, 32, 1, q);
    OneHasOnlyTrivialFactors(g, d);
  }

  /** An odd number has an inverse modulo 2^32. */
  lemma OddHasInverse(a: nat) returns (x: nat, c: int)
    requires a % 2 == 1
    ensures ModInverse(a, WORD) == Some(x) && x < WORD && a * x == WORD * c + 1
  {
    var (g, u, v) := Euclid(a, WORD);
    var p, q := EuclidCorrect(a, WORD);
    OddCoprimeToWord(a);
    ReduceCoefficient(a, u, WORD);
    x, c := u % WORD, -v - a * (u / WORD);
  }

  lemma OneHasOnlyTrivialFactors(g: nat, d: int)
    requires g * d == 1
    ensures g == 1
  {
    if g >= 2 {
      if d >= 1 {
        MulMonotonic(g, 1, d);
      } else {
        MulMonotonic(g, d, 0);
      }
    }
  }

  lemma NegatedInverse(n: int, rem: int, q: int, x: int, c: int)
    requires n == WORD * q + rem && rem * x == WORD * c + 1
    ensures x != 0 && (n * (WORD - x) + 1) % WORD == 0
  {
    assert n * x == WORD * (q * x) + rem * x;
    assert n * (WORD - x) == WORD * n - n * x;
    MultipleMod(WORD, n - q * x - c);
  }

  lemma N0InvNegatesInverse(n: nat, rem: nat) returns (x: nat, c: int)
    requires rem % 2 == 1 && rem == n % WORD
    ensures N0Inv(n) == Negate(x) && x < WORD && rem * x == WORD * c + 1
  {
    x, c := OddHasInverse(rem);
  }

  lemma LowWordOfOdd(n: nat)
    requires n % 2 == 1
    ensures n == WORD * (n / WORD) + n % WORD && n % WORD % 2 == 1
  {
    DivModIdentity(n, WORD);
    var r, h := n % WORD, 0x8000_0000 * (n / WORD);
    assert n == 2 * h + r;
    DivModUnique(n, 2, h + r / 2, r % 2);
  }

  lemma N0InvOdd(n: nat)
    requires n % 2 == 1
    ensures (n * N0Inv(n) + 1) % WORD == 0
  {
    LowWordOfOdd(n);
    var x, c := N0InvNegatesInverse(n, n % WORD);
    NegatedInverse(n, n % WORD, n / WORD, x, c);
    NegateWraps(x);
    var w: int := N0Inv(n);
    assert w == WORD - x;
  }

  lemma EvenHasNoInverse(a: nat)
    requires a % 2 == 0
    ensures ModInverse(a, WORD) == None
  {
    var (g, x, y) := Euclid(a, WORD);
    var p, q := EuclidCorrect(a, WORD);
    EvenProduct(a, x);
  }

  lemma N0InvEven(n: nat)
    requires n % 2 == 0
    ensures N0Inv(n) == 0
  {
    EvenHasNoInverse(n % WORD);
  }

  /** For every odd n, n0inv() is the one word w that makes n * w + 1 a multiple
      of 2^32; for an even n no word does, and n0inv() is zero. */
  lemma N0InvCorrect(n: nat)
    ensures (n * N0Inv(n) + 1) % WORD == 0 <==> n % 2 == 1
    ensures forall w: word :: (n * w + 1) % WORD == 0 ==> w == N0Inv(n)
    ensures n % 2 == 0 ==> N0Inv(n) == 0
  {
    if n % 2 == 1 {
      N0InvOdd(n);
    } else {
      N0InvEven(n);
    }
    forall w: word | (n * w + 1) % WORD == 0 ensures w == N0Inv(n) {
      if n % 2 == 1 {
        NegInverseUnique(n, w, N0Inv(n));
      } else {
        EvenHasNoNegInverse(n, w);
      }
    }
  }

  lemma EvenHasNoNegInverse(n: nat, v: word)
    requires n % 2 == 0
    ensures (n * v + 1) % WORD != 0
  {
    EvenProduct(n, v);
  }

  lemma NegInverseUnique(n: nat, v: word, w: word)
    requires (n * v + 1) % WORD == 0 && (n * w + 1) % WORD == 0
    ensures v == w
  {
    var a, b := (n * v + 1) / WORD, (n * w + 1) / WORD;
    var d := v as int - w as int;
    assert n * d == WORD * (a - b) by { assert n * d == n * v - n * w; }
    // d == d * (n * w + 1) - w * (n * d), a difference of two multiples of 2^32.
    assert d * (n * w + 1) == WORD * (d * b);
    assert d * (n * w) == w * (n * d);
    assert w * (n * d) == WORD * (w * (a - b));
    SmallMultiple(WORD, d * b - w * (a - b));
  }

  // ----- the Montgomery form of a signature -----

  /** What sign() emits for a raw signature: sig * R mod n, R = 2^(32 k). */
  function MontgomeryForm(sig: nat, n: nat, k: nat): nat
    requires n > 0
  {
    sig * Radix(k) % n
  }

  /** sign(): the raw signature comes from the signing backend, except that for
      a public-only key of any size but 64 words it is the preloaded one. */
  function Sign(key: Key, msg: seq<byte>, preloaded: nat): Option<nat>
    requires key.modulus > 0
  {
    match RawSignature(key, msg, preloaded)
    case None => None
    case Some(sig) => Some(MontgomeryForm(sig, key.modulus, RWORDS))
  }

  function RawSignature(key: Key, msg: seq<byte>, preloaded: nat): Option<nat> {
    if key.publicOnly && NWords(key.modulus) != 64 then Some(preloaded) else key.signer(msg)
  }
}
