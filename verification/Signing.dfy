/** What sign() leaves in memory, and that it is consistent: whoever recomputes
    the hashes from the finished image gets exactly what was signed. */
module Signing {
  import opened Common
  import opened Arithmetic
  import opened Limbs
  import opened PublicKey
  import opened ImageState

  // ----- field offsets in the signed header -----

  const SIGNATURE: int := 4
  const IMG_CHK: int := SIGNATURE + 4 * 96
  const TAG: int := IMG_CHK + 4
  const KEYID: int := TAG + 4 * 7
  const KEY: int := KEYID + 4
  const IMAGE_SIZE: int := KEY + 4 * 96
  const RO_BASE: int := IMAGE_SIZE + 4
  const FUSES_CHK: int := 1016
  const INFO_CHK: int := 1020

  /** Where the fields are in the 1K structure. */
  lemma FieldOffsets()
    ensures SIGNATURE == 4 && IMG_CHK == 388 && TAG == 392 && KEYID == 420 && KEY == 424
    ensures IMAGE_SIZE == 808 && RO_BASE == 812 && FUSES_CHK == 1016 && INFO_CHK == 1020
  {
  }

  type digest = d: seq<byte> | |d| == 32 witness seq(32, _ => 0)

  type header = h: seq<byte> | |h| == HEADER_SIZE witness seq(HEADER_SIZE, _ => 0)

  /** The inputs of sign(): the prepared header, the compiled fuse and info
      arrays, the hash function and the key. */
  datatype Request = Request(hdr: header, fuses: seq<word>, infos: seq<word>, sha: seq<byte> -> digest, key: Key) {
    predicate Valid() {
      |fuses| == ARRAY_MAX && |infos| == ARRAY_MAX && key.modulus > 0
    }
  }

  /** The header fits into the image, and the image into memory. */
  predicate Signable(s: State) {
    0 <= s.base && s.base + HEADER_SIZE <= s.high <= MEM_SIZE
  }

  /** BN_bin2bn: the big-endian value of a byte array. */
  function BigEndian(b: seq<byte>): nat {
    if b == [] then 0 else 0x100 * BigEndian(b[..|b| - 1]) + b[|b| - 1] as int
  }

  function FusesHash(q: Request): digest {
    q.sha(WordsBytes(q.fuses))
  }

  function InfoHash(q: Request): digest {
    q.sha(WordsBytes(q.infos))
  }

  /** The first four bytes of a hash as the word the checks record. */
  function Check(d: digest): word {
    BytesWord(d[..4])
  }

  /** The header when the image is hashed. */
  function HashedHeader(s: State, q: Request): header
    requires Signable(s)
  {
    var sized := WriteAt(q.hdr, IMAGE_SIZE, WordBytes(s.Size()));
    var keyed := WriteAt(sized, KEY, WordsBytes(LowLimbs(q.key.modulus, RWORDS)));
    var fused := WriteAt(keyed, FUSES_CHK, WordBytes(Check(FusesHash(q))));
    WriteAt(fused, INFO_CHK, WordBytes(Check(InfoHash(q))))
  }

  /** The bytes of the image behind the header. */
  function Body(s: State): seq<byte>
    requires Signable(s)
  {
    s.mem[s.base + HEADER_SIZE..s.high]
  }

  function ImageHash(s: State, q: Request): digest
    requires Signable(s)
  {
    q.sha(HashedHeader(s, q)[TAG..] + Body(s))
  }

  function CheckedHeader(s: State, q: Request): header
    requires Signable(s)
  {
    WriteAt(HashedHeader(s, q), IMG_CHK, WordBytes(Check(ImageHash(s, q))))
  }

  /** The hashes that are signed. */
  function Hashes(image: digest, fuses: digest, info: digest): seq<byte> {
    image + fuses + info
  }

  function Message(s: State, q: Request): seq<byte>
    requires Signable(s)
  {
    Hashes(ImageHash(s, q), FusesHash(q), InfoHash(q))
  }

  function Preloaded(q: Request): nat {
    BigEndian(q.hdr[SIGNATURE..IMG_CHK])
  }

  function FinalHeader(s: State, q: Request): header
    requires Signable(s) && q.Valid()
  {
    match Sign(q.key, Message(s, q), Preloaded(q))
    case None => CheckedHeader(s, q)
    case Some(sig) => WriteAt(CheckedHeader(s, q), SIGNATURE, WordsBytes(LowLimbs(sig, RWORDS)))
  }

  /** Image::sign: only the header changes; false when the key fails. */
  function SignImage(s: State, q: Request): (State, bool)
    requires Signable(s) && q.Valid()
  {
    (s.(mem := WriteAt(s.mem, s.base, FinalHeader(s, q))), Sign(q.key, Message(s, q), Preloaded(q)).Some?)
  }

  // ----- header fields -----

  /** Writing a field of a header in place writes that header. */
  lemma WriteField(mem: seq<byte>, base: nat, h: seq<byte>, off: nat, b: seq<byte>)
    requires base + |h| <= |mem| && off + |b| <= |h|
    ensures WriteAt(WriteAt(mem, base, h), base + off, b) == WriteAt(mem, base, WriteAt(h, off, b))
  {
  }

  /** Header bytes sign() does not compute are those of the prepared header. */
  lemma PreparedBytes(s: State, q: Request, lo: nat, hi: nat)
    requires Signable(s) && lo <= hi
    requires hi <= KEY || (RO_BASE <= lo && hi <= FUSES_CHK)
    ensures HashedHeader(s, q)[lo..hi] == q.hdr[lo..hi]
  {
    var size, key := WordBytes(s.Size()), WordsBytes(LowLimbs(q.key.modulus, RWORDS));
    var sized := WriteAt(q.hdr, IMAGE_SIZE, size);
    var keyed := WriteAt(sized, KEY, key);
    var fused := WriteAt(keyed, FUSES_CHK, WordBytes(Check(FusesHash(q))));
    SliceOther(q.hdr, IMAGE_SIZE, size, lo, hi);
    SliceOther(sized, KEY, key, lo, hi);
    SliceOther(keyed, FUSES_CHK, WordBytes(Check(FusesHash(q))), lo, hi);
    SliceOther(fused, INFO_CHK, WordBytes(Check(InfoHash(q))), lo, hi);
  }

  /** The header bytes sign() computes before hashing. */
  lemma ComputedFields(s: State, q: Request)
    requires Signable(s)
    ensures var h := HashedHeader(s, q);
      && h[KEY..IMAGE_SIZE] == WordsBytes(LowLimbs(q.key.modulus, RWORDS))
      && h[IMAGE_SIZE..RO_BASE] == WordBytes(s.Size())
      && h[FUSES_CHK..INFO_CHK] == WordBytes(Check(FusesHash(q)))
      && h[INFO_CHK..HEADER_SIZE] == WordBytes(Check(InfoHash(q)))
  {
    var size, key := WordBytes(s.Size()), WordsBytes(LowLimbs(q.key.modulus, RWORDS));
    var sized := WriteAt(q.hdr, IMAGE_SIZE, size);
    var keyed := WriteAt(sized, KEY, key);
    var fuses, infos := WordBytes(Check(FusesHash(q))), WordBytes(Check(InfoHash(q)));
    var fused := WriteAt(keyed, FUSES_CHK, fuses);
    SliceSame(q.hdr, IMAGE_SIZE, size);
    SliceOther(sized, KEY, key, IMAGE_SIZE, RO_BASE);
    SliceSame(sized, KEY, key);
    SliceOther(keyed, FUSES_CHK, fuses, IMAGE_SIZE, RO_BASE);
    SliceOther(keyed, FUSES_CHK, fuses, KEY, IMAGE_SIZE);
    SliceSame(keyed, FUSES_CHK, fuses);
    SliceOther(fused, INFO_CHK, infos, IMAGE_SIZE, RO_BASE);
    SliceOther(fused, INFO_CHK, infos, KEY, IMAGE_SIZE);
    SliceOther(fused, INFO_CHK, infos, FUSES_CHK, INFO_CHK);
    SliceSame(fused, INFO_CHK, infos);
  }

  /** Nothing from the tag on changes after hashing. */
  lemma FinalFields(s: State, q: Request)
    requires Signable(s) && q.Valid()
    ensures var h, f := HashedHeader(s, q), FinalHeader(s, q);
      && f[0..SIGNATURE] == q.hdr[0..SIGNATURE]
      && f[IMG_CHK..TAG] == WordBytes(Check(ImageHash(s, q)))
      && f[TAG..] == h[TAG..]
      && (match Sign(q.key, Message(s, q), Preloaded(q))
          case None => f[SIGNATURE..IMG_CHK] == q.hdr[SIGNATURE..IMG_CHK]
          case Some(sig) => f[SIGNATURE..IMG_CHK] == WordsBytes(LowLimbs(sig, RWORDS)))
  {
    var h, c := HashedHeader(s, q), CheckedHeader(s, q);
    var check := WordBytes(Check(ImageHash(s, q)));
    PreparedBytes(s, q, 0, SIGNATURE);
    PreparedBytes(s, q, SIGNATURE, IMG_CHK);
    SliceSame(h, IMG_CHK, check);
    SliceOther(h, IMG_CHK, check, 0, SIGNATURE);
    SliceOther(h, IMG_CHK, check, SIGNATURE, IMG_CHK);
    SliceOther(h, IMG_CHK, check, TAG, HEADER_SIZE);
    assert c[TAG..] == c[TAG..HEADER_SIZE] == h[TAG..HEADER_SIZE] == h[TAG..];
    match Sign(q.key, Message(s, q), Preloaded(q)) {
      case None =>
      case Some(sig) =>
        var f, b := FinalHeader(s, q), WordsBytes(LowLimbs(sig, RWORDS));
        SliceSame(c, SIGNATURE, b);
        SliceOther(c, SIGNATURE, b, 0, SIGNATURE);
        SliceOther(c, SIGNATURE, b, IMG_CHK, TAG);
        SliceOther(c, SIGNATURE, b, TAG, HEADER_SIZE);
        assert f[TAG..] == f[TAG..HEADER_SIZE] == c[TAG..HEADER_SIZE] == c[TAG..];
    }
  }

  /** The bytes sign() hashes are the hashed header from the tag on and the body. */
  lemma HashInput(m0: memory, base: nat, high: int, h: header)
    requires base + HEADER_SIZE <= high <= MEM_SIZE
    ensures WriteAt(m0, base, h)[base + TAG..high] == h[TAG..] + m0[base + HEADER_SIZE..high]
  {
    var mem := WriteAt(m0, base, h);
    HeaderSlice(m0, base, h, TAG, HEADER_SIZE);
    SliceOther(m0, base, h, base + HEADER_SIZE, high);
    SliceSplit(mem, base + TAG, base + HEADER_SIZE, high);
    assert h[TAG..] == h[TAG..HEADER_SIZE];
  }

  /** Nothing was written to the signature field yet when it is read back. */
  lemma SignatureInput(s: State, q: Request)
    requires Signable(s)
    ensures WriteAt(s.mem, s.base, CheckedHeader(s, q))[s.base + SIGNATURE..s.base + IMG_CHK]
         == q.hdr[SIGNATURE..IMG_CHK]
  {
    PreparedBytes(s, q, SIGNATURE, IMG_CHK);
    var check := WordBytes(Check(ImageHash(s, q)));
    SliceOther(HashedHeader(s, q), IMG_CHK, check, SIGNATURE, IMG_CHK);
    HeaderSlice(s.mem, s.base, CheckedHeader(s, q), SIGNATURE, IMG_CHK);
  }

  // ----- what a reader of the finished image finds -----

  function LoadWord(mem: memory, adr: nat): word
    requires adr + 4 <= MEM_SIZE
  {
    BytesWord(mem[adr..adr + 4])
  }

  /** The hash a reader computes over the signed part of an image. */
  function RecomputedHash(mem: memory, base: nat, high: int, q: Request): digest
    requires base + TAG <= high <= MEM_SIZE
  {
    q.sha(mem[base + TAG..high])
  }

  lemma HeaderSlice(mem: seq<byte>, base: nat, h: seq<byte>, lo: nat, hi: nat)
    requires base + |h| <= |mem| && lo <= hi <= |h|
    ensures WriteAt(mem, base, h)[base + lo..base + hi] == h[lo..hi]
  {
  }

  lemma HashedRange(s: State, q: Request)
    requires Signable(s) && q.Valid()
    ensures SignImage(s, q).0.mem[s.base + TAG..s.high] == HashedHeader(s, q)[TAG..] + Body(s)
  {
    var f, mem := FinalHeader(s, q), SignImage(s, q).0.mem;
    FinalFields(s, q);
    HeaderSlice(s.mem, s.base, f, TAG, HEADER_SIZE);
    SliceOther(s.mem, s.base, f, s.base + HEADER_SIZE, s.high);
    SliceSplit(mem, s.base + TAG, s.base + HEADER_SIZE, s.high);
  }

  lemma HeaderWord(m0: memory, base: nat, h: header, off: nat, w: word)
    requires base + HEADER_SIZE <= MEM_SIZE && off + 4 <= HEADER_SIZE && h[off..off + 4] == WordBytes(w)
    ensures LoadWord(WriteAt(m0, base, h), base + off) == w
  {
    HeaderSlice(m0, base, h, off, off + 4);
    WordBytesRoundTrip(w);
  }

  /** Header fields from the tag on are those of the hashed header. */
  lemma TailKept(s: State, q: Request, lo: nat, hi: nat)
    requires Signable(s) && q.Valid() && TAG <= lo <= hi <= HEADER_SIZE
    ensures FinalHeader(s, q)[lo..hi] == HashedHeader(s, q)[lo..hi]
  {
    var f, h := FinalHeader(s, q), HashedHeader(s, q);
    FinalFields(s, q);
    assert f[TAG..][lo - TAG..hi - TAG] == f[lo..hi];
    assert h[TAG..][lo - TAG..hi - TAG] == h[lo..hi];
  }

  /** A word of the final header, read from the finished image. */
  lemma SignedWord(s: State, q: Request, off: nat, w: word)
    requires Signable(s) && q.Valid() && off + 4 <= HEADER_SIZE
    requires FinalHeader(s, q)[off..off + 4] == WordBytes(w)
    ensures LoadWord(SignImage(s, q).0.mem, s.base + off) == w
  {
    HeaderWord(s.mem, s.base, FinalHeader(s, q), off, w);
  }

  lemma CheckField(s: State, q: Request)
    requires Signable(s) && q.Valid()
    ensures FinalHeader(s, q)[IMG_CHK..IMG_CHK + 4] == WordBytes(Check(ImageHash(s, q)))
  {
    FinalFields(s, q);
  }

  lemma SignatureField(s: State, q: Request, sig: nat)
    requires Signable(s) && q.Valid() && Sign(q.key, Message(s, q), Preloaded(q)) == Some(sig)
    ensures FinalHeader(s, q)[SIGNATURE..SIGNATURE + 4 * RWORDS] == WordsBytes(LowLimbs(sig, RWORDS))
  {
    FinalFields(s, q);
  }

  lemma SignedHash(s: State, q: Request)
    requires Signable(s) && q.Valid()
    ensures RecomputedHash(SignImage(s, q).0.mem, s.base, s.high, q) == ImageHash(s, q)
  {
    HashedRange(s, q);
  }

  /** The recorded image check is the hash of the finished image ... */
  lemma RecordedImageHash(s: State, q: Request)
    requires Signable(s) && q.Valid()
    ensures var mem := SignImage(s, q).0.mem;
      && RecomputedHash(mem, s.base, s.high, q) == ImageHash(s, q)
      && LoadWord(mem, s.base + IMG_CHK) == Check(RecomputedHash(mem, s.base, s.high, q))
  {
    SignedHash(s, q);
    CheckField(s, q);
    SignedWord(s, q, IMG_CHK, Check(ImageHash(s, q)));
  }

  lemma FieldWord(s: State, q: Request, off: nat, w: word)
    requires Signable(s) && q.Valid() && TAG <= off && off + 4 <= HEADER_SIZE
    requires HashedHeader(s, q)[off..off + 4] == WordBytes(w)
    ensures LoadWord(SignImage(s, q).0.mem, s.base + off) == w
  {
    TailKept(s, q, off, off + 4);
    SignedWord(s, q, off, w);
  }

  /** ... the fuse and info checks are the hashes of the arrays ... */
  lemma RecordedFusesHash(s: State, q: Request)
    requires Signable(s) && q.Valid()
    ensures LoadWord(SignImage(s, q).0.mem, s.base + FUSES_CHK) == Check(FusesHash(q))
  {
    ComputedFields(s, q);
    FieldWord(s, q, FUSES_CHK, Check(FusesHash(q)));
  }

  lemma RecordedInfoHash(s: State, q: Request)
    requires Signable(s) && q.Valid()
    ensures LoadWord(SignImage(s, q).0.mem, s.base + INFO_CHK) == Check(InfoHash(q))
  {
    ComputedFields(s, q);
    FieldWord(s, q, INFO_CHK, Check(InfoHash(q)));
  }

  /** ... and the recorded size is the size of the image. */
  lemma RecordedSize(s: State, q: Request)
    requires Signable(s) && q.Valid()
    ensures LoadWord(SignImage(s, q).0.mem, s.base + IMAGE_SIZE) == s.Size()
  {
    ComputedFields(s, q);
    FieldWord(s, q, IMAGE_SIZE, s.Size());
  }

  /** After sign() the recorded check words are the hashes of the finished image
      and of the arrays, and what was given to the key is made of those hashes. */
  lemma SignedImageIsConsistent(s: State, q: Request)
    requires Signable(s) && q.Valid()
    ensures var mem := SignImage(s, q).0.mem;
      var hash := RecomputedHash(mem, s.base, s.high, q);
      && LoadWord(mem, s.base + IMG_CHK) == Check(hash)
      && LoadWord(mem, s.base + FUSES_CHK) == Check(FusesHash(q))
      && LoadWord(mem, s.base + INFO_CHK) == Check(InfoHash(q))
      && LoadWord(mem, s.base + IMAGE_SIZE) == s.Size()
      && Message(s, q) == Hashes(hash, FusesHash(q), InfoHash(q))
  {
    RecordedImageHash(s, q);
    RecordedFusesHash(s, q);
    RecordedInfoHash(s, q);
    RecordedSize(s, q);
  }

  /** Header fields from the tag on read the same from the finished image. */
  lemma FieldBehindTag(s: State, q: Request, lo: nat, hi: nat)
    requires Signable(s) && q.Valid() && TAG <= lo <= hi <= HEADER_SIZE
    ensures SignImage(s, q).0.mem[s.base + lo..s.base + hi] == HashedHeader(s, q)[lo..hi]
  {
    TailKept(s, q, lo, hi);
    HeaderSlice(s.mem, s.base, FinalHeader(s, q), lo, hi);
  }

  /** Signing touches nothing but the header, and in the header nothing but the
      fields it computes; when the key fails the signature field keeps what the
      prepared header held. */
  lemma SignFrame(s: State, q: Request)
    requires Signable(s) && q.Valid()
    ensures var (t, done) := SignImage(s, q);
      && t == s.(mem := t.mem)
      && t.mem[..s.base] == s.mem[..s.base]
      && t.mem[s.base + HEADER_SIZE..] == s.mem[s.base + HEADER_SIZE..]
      && t.mem[s.base..s.base + SIGNATURE] == q.hdr[0..SIGNATURE]
      && t.mem[s.base + TAG..s.base + KEY] == q.hdr[TAG..KEY]
      && t.mem[s.base + RO_BASE..s.base + FUSES_CHK] == q.hdr[RO_BASE..FUSES_CHK]
      && (!done ==> t.mem[s.base + SIGNATURE..s.base + IMG_CHK] == q.hdr[SIGNATURE..IMG_CHK])
  {
    var f := FinalHeader(s, q);
    FinalFields(s, q);
    PreparedBytes(s, q, TAG, KEY);
    PreparedBytes(s, q, RO_BASE, FUSES_CHK);
    HeaderSlice(s.mem, s.base, f, 0, SIGNATURE);
    HeaderSlice(s.mem, s.base, f, SIGNATURE, IMG_CHK);
    FieldBehindTag(s, q, TAG, KEY);
    FieldBehindTag(s, q, RO_BASE, FUSES_CHK);
  }
}
