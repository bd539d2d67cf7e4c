/** A finished image as its reader sees it: what the bytes of the header are, in
    terms of the key, the hash function and the arrays alone. */
module SignedBytes {
  import opened Common
  import opened Arithmetic
  import opened Limbs
  import opened ByteOrder
  import opened PublicKey
  import opened Montgomery
  import opened ImageState
  import opened Signing

  /** What is signed: the hashes of the image from the tag on, the fuse array and
      the info array, one after the other. */
  function SignedText(mem: memory, base: nat, high: int, q: Request): seq<byte>
    requires base + TAG <= high <= MEM_SIZE
  {
    q.sha(mem[base + TAG..high]) + q.sha(WordsBytes(q.fuses)) + q.sha(WordsBytes(q.infos))
  }

  /** The key has a signature made: a private key, or a public one of 64 words. */
  predicate AsksSigner(key: Key) {
    !key.publicOnly || Radix(63) <= key.modulus < Radix(64)
  }

  /** `raw` is the signature of a text: the one that was made for it, or the
      number in the prepared signature field. */
  predicate Signs(q: Request, text: seq<byte>, raw: nat) {
    if AsksSigner(q.key) then q.key.signer(text) == Some(raw) else raw == Big(q.hdr[SIGNATURE..IMG_CHK])
  }

  lemma SignedTextIsMessage(s: State, q: Request)
    requires Signable(s) && q.Valid()
    ensures SignedText(SignImage(s, q).0.mem, s.base, s.high, q) == Message(s, q)
  {
    SignedHash(s, q);
  }

  lemma {:induction false} BigEndianIsBig(b: seq<byte>)
    ensures BigEndian(b) == Big(b)
    decreases |b|
  {
    if b != [] {
      BigEndianIsBig(b[..|b| - 1]);
      BigAppends(b[..|b| - 1], b[|b| - 1]);
      assert b[..|b| - 1] + [b[|b| - 1]] == b;
    }
  }

  lemma NWordsIs64(n: nat)
    ensures NWords(n) == 64 <==> Radix(63) <= n < Radix(64)
  {
    NWordsIsLeast(n, 63);
    NWordsIsLeast(n, 64);
  }

  lemma RawIsSigned(q: Request, text: seq<byte>, raw: nat)
    ensures RawSignature(q.key, text, Preloaded(q)) == Some(raw) <==> Signs(q, text, raw)
    ensures RawSignature(q.key, text, Preloaded(q)).Some? <==> (AsksSigner(q.key) ==> q.key.signer(text).Some?)
  {
    NWordsIs64(q.key.modulus);
    BigEndianIsBig(q.hdr[SIGNATURE..IMG_CHK]);
  }

  /** sign() succeeds unless a signature had to be made and could not be. */
  lemma SignsIff(s: State, q: Request)
    requires Signable(s) && q.Valid()
    ensures var (t, done) := SignImage(s, q);
      var text := SignedText(t.mem, s.base, s.high, q);
      && (done <==> (AsksSigner(q.key) ==> q.key.signer(text).Some?))
      && (done <==> exists raw: nat :: Signs(q, text, raw))
  {
    var text := SignedText(SignImage(s, q).0.mem, s.base, s.high, q);
    SignedTextIsMessage(s, q);
    RawIsSigned(q, text, 0);
    if AsksSigner(q.key) {
      if q.key.signer(text).Some? {
        assert Signs(q, text, q.key.signer(text).value);
      }
    } else {
      assert Signs(q, text, Big(q.hdr[SIGNATURE..IMG_CHK]));
    }
  }

  // ----- the header -----

  /** The header of an image that starts at base. */
  function HeaderOf(mem: memory, base: nat): header
    requires base + HEADER_SIZE <= MEM_SIZE
  {
    mem[base..base + HEADER_SIZE]
  }

  lemma HeaderIsFinal(s: State, q: Request)
    requires Signable(s) && q.Valid()
    ensures HeaderOf(SignImage(s, q).0.mem, s.base) == FinalHeader(s, q)
  {
    SliceSame(s.mem, s.base, FinalHeader(s, q));
  }

  lemma CheckBytes(d: digest)
    ensures WordBytes(Check(d)) == d[..4]
  {
    BytesRoundTrip(d[..4]);
  }

  lemma ImageCheck(s: State, q: Request)
    requires Signable(s) && q.Valid()
    ensures FinalHeader(s, q)[IMG_CHK..TAG] == q.sha(SignImage(s, q).0.mem[s.base + TAG..s.high])[..4]
  {
    SignedHash(s, q);
    CheckField(s, q);
    CheckBytes(ImageHash(s, q));
  }

  lemma FusesCheck(s: State, q: Request)
    requires Signable(s) && q.Valid()
    ensures FinalHeader(s, q)[FUSES_CHK..INFO_CHK] == q.sha(WordsBytes(q.fuses))[..4]
  {
    ComputedFields(s, q);
    TailKept(s, q, FUSES_CHK, INFO_CHK);
    CheckBytes(FusesHash(q));
  }

  lemma InfoCheck(s: State, q: Request)
    requires Signable(s) && q.Valid()
    ensures FinalHeader(s, q)[INFO_CHK..HEADER_SIZE] == q.sha(WordsBytes(q.infos))[..4]
  {
    ComputedFields(s, q);
    TailKept(s, q, INFO_CHK, HEADER_SIZE);
    CheckBytes(InfoHash(q));
  }

  lemma SizeBytes(s: State, q: Request)
    requires Signable(s) && q.Valid()
    ensures FinalHeader(s, q)[IMAGE_SIZE..RO_BASE] == WordBytes(s.Size())
  {
    ComputedFields(s, q);
    TailKept(s, q, IMAGE_SIZE, RO_BASE);
  }

  /** The checks are the first four bytes of the hashes, of the finished image and
      of the arrays, and the size is that of the image. */
  lemma ChecksAreHashes(s: State, q: Request)
    requires Signable(s) && q.Valid()
    ensures var mem := SignImage(s, q).0.mem;
      var h := HeaderOf(mem, s.base);
      && h[IMG_CHK..TAG] == q.sha(mem[s.base + TAG..s.high])[..4]
      && h[FUSES_CHK..INFO_CHK] == q.sha(WordsBytes(q.fuses))[..4]
      && h[INFO_CHK..HEADER_SIZE] == q.sha(WordsBytes(q.infos))[..4]
      && Little(h[IMAGE_SIZE..RO_BASE]) == s.high - s.base
  {
    HeaderIsFinal(s, q);
    ImageCheck(s, q);
    FusesCheck(s, q);
    InfoCheck(s, q);
    SizeBytes(s, q);
    WordIsLittle(s.Size());
  }

  // ----- the numbers -----

  /** The bytes stored for a number, by their weights. */
  lemma LimbsAreLittle(n: nat, k: nat)
    ensures Little(WordsBytes(LowLimbs(n, k))) == n % Radix(k)
  {
    var b := WordsBytes(LowLimbs(n, k));
    assert |b| == 4 * k;
    ValueIsLittle(b);
    WordsBytesRoundTrip(LowLimbs(n, k));
    ValueOfLowLimbs(n, k);
  }

  lemma KeyBytes(s: State, q: Request)
    requires Signable(s) && q.Valid()
    ensures FinalHeader(s, q)[KEY..IMAGE_SIZE] == WordsBytes(LowLimbs(q.key.modulus, RWORDS))
  {
    ComputedFields(s, q);
    TailKept(s, q, KEY, IMAGE_SIZE);
  }

  lemma SignedResult(s: State, q: Request, raw: nat)
    requires Signable(s) && q.Valid() && Signs(q, SignedText(SignImage(s, q).0.mem, s.base, s.high, q), raw)
    ensures Sign(q.key, Message(s, q), Preloaded(q)) == Some(MontgomeryForm(raw, q.key.modulus, RWORDS))
  {
    SignedTextIsMessage(s, q);
    RawIsSigned(q, Message(s, q), raw);
  }

  lemma ResultBytes(s: State, q: Request, raw: nat)
    requires Signable(s) && q.Valid() && Signs(q, SignedText(SignImage(s, q).0.mem, s.base, s.high, q), raw)
    ensures FinalHeader(s, q)[SIGNATURE..IMG_CHK]
         == WordsBytes(LowLimbs(MontgomeryForm(raw, q.key.modulus, RWORDS), RWORDS))
  {
    SignedResult(s, q, raw);
    SignatureField(s, q, MontgomeryForm(raw, q.key.modulus, RWORDS));
  }

  /** The key field holds the modulus, and the signature field raw * 2^3072 modulo
      the key, each as far as 384 bytes go. */
  lemma StoredNumbers(s: State, q: Request, raw: nat)
    requires Signable(s) && q.Valid() && Signs(q, SignedText(SignImage(s, q).0.mem, s.base, s.high, q), raw)
    ensures var h := HeaderOf(SignImage(s, q).0.mem, s.base);
      && Little(h[KEY..IMAGE_SIZE]) == q.key.modulus % Radix(RWORDS)
      && Little(h[SIGNATURE..IMG_CHK]) == raw * Radix(RWORDS) % q.key.modulus % Radix(RWORDS)
  {
    HeaderIsFinal(s, q);
    KeyBytes(s, q);
    LimbsAreLittle(q.key.modulus, RWORDS);
    ResultBytes(s, q, raw);
    LimbsAreLittle(MontgomeryForm(raw, q.key.modulus, RWORDS), RWORDS);
  }

  /** Reducing what k limbs keep of the Montgomery form, when they keep the key. */
  lemma ReduceStored(raw: nat, n: nat, k: nat, stored: nat, key: nat)
    requires n % 2 == 1 && n < Radix(k)
    requires stored == raw * Radix(k) % n % Radix(k) && key == n % Radix(k)
    ensures Reduce(stored, key, N0Inv(n), k) == raw % n
  {
    DivModUnique(n, Radix(k), 0, n);
    DivModUnique(MontgomeryForm(raw, n, k), Radix(k), 0, MontgomeryForm(raw, n, k));
    ReduceRecoversSignature(raw, n, k);
  }

  /** A reader of the signature: Montgomery reduction of the stored number with
      the stored key and key id. */
  function ReadSignature(h: header): nat {
    Reduce(Little(h[SIGNATURE..IMG_CHK]), Little(h[KEY..IMAGE_SIZE]), BytesWord(h[KEYID..KEY]), RWORDS)
  }

  lemma ReducesAs(h: header, id: word, stored: nat, key: nat)
    requires h[KEYID..KEY] == WordBytes(id)
    requires Little(h[KEY..IMAGE_SIZE]) == key && Little(h[SIGNATURE..IMG_CHK]) == stored
    ensures ReadSignature(h) == Reduce(stored, key, id, RWORDS)
  {
    WordBytesRoundTrip(id);
  }

  lemma ReadsStored(h: header, raw: nat, n: nat, stored: nat, key: nat)
    requires n % 2 == 1 && n < Radix(RWORDS) && h[KEYID..KEY] == WordBytes(N0Inv(n))
    requires Little(h[KEY..IMAGE_SIZE]) == key && Little(h[SIGNATURE..IMG_CHK]) == stored
    requires stored == raw * Radix(RWORDS) % n % Radix(RWORDS) && key == n % Radix(RWORDS)
    ensures ReadSignature(h) == raw % n
  {
    ReducesAs(h, N0Inv(n), stored, key);
    ReduceStored(raw, n, RWORDS, stored, key);
  }

  lemma KeyIdBytes(s: State, q: Request)
    requires Signable(s) && q.Valid()
    ensures FinalHeader(s, q)[KEYID..KEY] == q.hdr[KEYID..KEY]
  {
    PreparedBytes(s, q, KEYID, KEY);
    TailKept(s, q, KEYID, KEY);
  }

  /** End to end: for an odd modulus that fits the header, and the key id main
      computes, a reader that knows only the finished image and the two arrays
      recomputes the signed text, and gets the raw signature of exactly that text
      modulo the key: the one that was made for it, or the number that was in the
      prepared signature field. */
  lemma ReaderRecoversSignature(s: State, q: Request, raw: nat)
    requires Signable(s) && q.Valid()
    requires Signs(q, SignedText(SignImage(s, q).0.mem, s.base, s.high, q), raw)
    requires q.key.modulus % 2 == 1 && q.key.modulus < Radix(RWORDS)
    requires q.hdr[KEYID..KEY] == WordBytes(N0Inv(q.key.modulus))
    ensures ReadSignature(HeaderOf(SignImage(s, q).0.mem, s.base)) == raw % q.key.modulus
  {
    HeaderIsFinal(s, q);
    StoredNumbers(s, q, raw);
    KeyIdBytes(s, q);
    var h := FinalHeader(s, q);
    ReadsStored(h, raw, q.key.modulus, Little(h[SIGNATURE..IMG_CHK]), Little(h[KEY..IMAGE_SIZE]));
  }
}
