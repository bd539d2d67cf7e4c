/** What holds of an image over its whole life: loaded from ELF, then padded
    and signed any number of times in any order, printed, and read back. */
module ImageRuns {
  import opened Common
  import opened Arithmetic
  import opened PublicKey
  import opened ByteOrder
  import opened ImageState
  import opened ElfLoad
  import opened IntelHex
  import opened HexRoundTrip
  import opened Padding
  import opened Signing
  import opened SignedBytes

  // ----- runs -----

  /** What main may do to a loaded image. */
  datatype Op = PadWith(f: nat -> word) | SignWith(q: Request)

  predicate Enabled(s: State, op: Op) {
    match op
    case PadWith(_) => s.base <= s.high
    case SignWith(q) => Signable(s) && q.Valid()
  }

  function Apply(s: State, op: Op): State
    requires Enabled(s, op)
  {
    match op
    case PadWith(f) => Pad(s, f)
    case SignWith(q) => SignImage(s, q).0
  }

  predicate AllEnabled(s: State, ops: seq<Op>)
    decreases |ops|
  {
    ops == [] || (Enabled(s, ops[0]) && AllEnabled(Apply(s, ops[0]), ops[1..]))
  }

  function ApplyAll(s: State, ops: seq<Op>): State
    requires AllEnabled(s, ops)
    decreases |ops|
  {
    if ops == [] then s else ApplyAll(Apply(s, ops[0]), ops[1..])
  }

  /** The invariant of a loaded image. */
  predicate Ready(s: State) {
    && Aligned(s) && s.base <= PAD_END
    && s.roBase == FLASH_BASE + s.base && s.rxBase == s.roBase + HEADER_SIZE
  }

  lemma WindowHasRoom(base: int, high: int, hits: set<int>)
    requires IsWindowOf(base, high, hits) && hits != {} && forall a :: a in hits ==> InRange(a)
    ensures base <= PAD_END
  {
    var a :| a in hits;
    AlignedRoom(base, MEM_SIZE);
  }

  lemma LoadedIsReady(file: seq<byte>, sections: seq<Section>, segments: seq<Segment>)
    requires |file| >= 4 && Contains(file, segments) && BytesWord(file[..4]) == ELF_MAGIC
    requires Hits(AllWrites(file, segments)) != {}
    ensures Ready(FromElf(Fresh(), file, sections, segments).0)
  {
    LoadedWindow(file, sections, segments);
    var hits := Hits(AllWrites(file, segments));
    var s := FromElf(Fresh(), file, sections, segments).0;
    WindowHasRoom(s.base, s.high, hits);
    BlocksArePrintable(s);
  }

  predicate Pads(ops: seq<Op>) {
    ops != [] && (ops[0].PadWith? || Pads(ops[1..]))
  }

  lemma PadKeepsReady(s: State, f: nat -> word)
    requires Ready(s)
    ensures var t := Pad(s, f);
      Ready(t) && t == s.(mem := t.mem, high := PAD_END)
  {
    BlocksArePrintable(Pad(s, f));
  }

  lemma SignKeepsReady(s: State, q: Request)
    requires Ready(s) && Signable(s) && q.Valid()
    ensures var t := SignImage(s, q).0;
      Ready(t) && t == s.(mem := t.mem)
  {
  }

  lemma ApplyKeepsReady(s: State, op: Op)
    requires Ready(s) && Enabled(s, op)
    ensures var t := Apply(s, op);
      && Ready(t) && t == s.(mem := t.mem, high := t.high)
      && t.high == if op.PadWith? then PAD_END else s.high
  {
    match op
    case PadWith(f) => PadKeepsReady(s, f);
    case SignWith(q) => SignKeepsReady(s, q);
  }

  /** Padding and signing, in any number and order, keep the invariant, and of
      the window only its end moves, to the limit, as soon as the run pads. */
  lemma {:induction false} RunKeepsReady(s: State, ops: seq<Op>)
    requires Ready(s) && AllEnabled(s, ops)
    ensures var t := ApplyAll(s, ops);
      && Ready(t)
      && t == s.(mem := t.mem, high := t.high)
      && t.high == if Pads(ops) then PAD_END else s.high
    decreases |ops|
  {
    if ops != [] {
      ApplyKeepsReady(s, ops[0]);
      RunKeepsReady(Apply(s, ops[0]), ops[1..]);
    }
  }

  /** An image main can produce may be signed exactly when it is not empty, and
      prints to text that restores it exactly then. */
  lemma ReadyImage(s: State, stack: buffer)
    requires Ready(s)
    ensures Signable(s) <==> s.base < s.high
    ensures SameImage(s, FromIntelHex(Fresh(), Some(Print(s)), true, stack)) <==> s.base < s.high
  {
    AlignedRoom(s.base, s.high);
    PrintReadRoundTrip(s, stack);
  }

  // ----- the bytes behind the header -----

  /** Filling with f from an offset on. */
  datatype Filling = Filling(start: int, f: nat -> word)

  /** The last padding of a run that reaches address a: the first padding starts
      at the size of the image, the later ones at its size once it ends at the limit. */
  function LastFilling(ops: seq<Op>, first: int, later: int, a: nat): Option<Filling> {
    if ops == [] then None
    else if ops[0].SignWith? then LastFilling(ops[1..], first, later, a)
    else
      var rest := LastFilling(ops[1..], later, later, a);
      if rest.Some? then rest
      else if first <= a < PAD_END then Some(Filling(first, ops[0].f))
      else None
  }

  /** The byte a filling puts at a, or what was there. */
  function ByteUnder(filling: Option<Filling>, a: nat, v: byte): byte {
    match filling
    case None => v
    case Some(Filling(start, f)) => if 0 <= start <= a then FilledByte(f, start, a) else v
  }

  /** The byte a run leaves at a, given the byte before. */
  function RunByte(ops: seq<Op>, first: int, later: int, a: nat, v: byte): byte {
    ByteUnder(LastFilling(ops, first, later, a), a, v)
  }

  /** One padding alone. */
  function PadByte(start: int, f: nat -> word, a: nat, v: byte): byte {
    ByteUnder(if start <= a < PAD_END then Some(Filling(start, f)) else None, a, v)
  }

  predicate BehindHeader(s: State, a: nat) {
    a < MEM_SIZE && (a < s.base || s.base + HEADER_SIZE <= a)
  }

  lemma SignKeepsByte(s: State, q: Request, a: nat)
    requires Signable(s) && q.Valid() && BehindHeader(s, a)
    ensures SignImage(s, q).0.mem[a] == s.mem[a]
  {
  }

  lemma PadSetsByte(s: State, f: nat -> word, a: nat)
    requires Aligned(s) && a < MEM_SIZE
    ensures Pad(s, f).mem[a] == PadByte(s.Size(), f, a, s.mem[a])
  {
    PadFrame(s, f);
  }

  lemma {:induction false} LastFillingStarts(ops: seq<Op>, first: int, later: int, a: nat)
    requires 0 <= first && 0 <= later
    ensures var filling := LastFilling(ops, first, later, a);
      filling.Some? ==> 0 <= filling.value.start <= a
  {
    if ops != [] {
      LastFillingStarts(ops[1..], if ops[0].SignWith? then first else later, later, a);
    }
  }

  /** A later padding that reaches the byte hides the first. */
  lemma FirstPadding(ops: seq<Op>, f: nat -> word, first: int, later: int, a: nat, v: byte)
    requires ops != [] && ops[0] == PadWith(f) && 0 <= first && 0 <= later
    ensures RunByte(ops, first, later, a, v) == RunByte(ops[1..], later, later, a, PadByte(first, f, a, v))
  {
    LastFillingStarts(ops[1..], later, later, a);
  }

  /** The byte a run on `s` should leave at a. */
  function Expected(s: State, ops: seq<Op>, a: nat): byte
    requires a < MEM_SIZE
  {
    RunByte(ops, s.Size(), PAD_END - s.base, a, s.mem[a])
  }

  lemma SignStep(s: State, ops: seq<Op>, q: Request, a: nat)
    requires ops != [] && ops[0] == SignWith(q) && Signable(s) && q.Valid() && BehindHeader(s, a)
    ensures Expected(SignImage(s, q).0, ops[1..], a) == Expected(s, ops, a)
  {
    SignKeepsByte(s, q, a);
  }

  lemma PaddedByte(s: State, t: State, ops: seq<Op>, f: nat -> word, a: nat)
    requires ops != [] && ops[0] == PadWith(f) && a < MEM_SIZE && s.base <= s.high && s.base <= PAD_END
    requires t.base == s.base && t.high == PAD_END && t.mem[a] == PadByte(s.Size(), f, a, s.mem[a])
    ensures Expected(t, ops[1..], a) == Expected(s, ops, a)
  {
    FirstPadding(ops, f, s.Size(), PAD_END - s.base, a, s.mem[a]);
  }

  lemma PadStep(s: State, ops: seq<Op>, f: nat -> word, a: nat)
    requires Ready(s) && ops != [] && ops[0] == PadWith(f) && a < MEM_SIZE
    ensures Expected(Pad(s, f), ops[1..], a) == Expected(s, ops, a)
  {
    PadSetsByte(s, f, a);
    PaddedByte(s, Pad(s, f), ops, f, a);
  }

  /** One step of a run, at one byte. */
  lemma StepFrame(s: State, ops: seq<Op>, a: nat)
    requires Ready(s) && ops != [] && Enabled(s, ops[0]) && BehindHeader(s, a)
    ensures var t := Apply(s, ops[0]);
      BehindHeader(t, a) && Expected(t, ops[1..], a) == Expected(s, ops, a)
  {
    match ops[0]
    case SignWith(q) => SignStep(s, ops, q, a);
    case PadWith(f) => PadStep(s, ops, f, a);
  }

  /** Over any run every byte that is not in the header is that of the last padding
      that reaches it, and the one the image had before when none does. */
  lemma {:induction false} RunFrame(s: State, ops: seq<Op>, a: nat)
    requires Ready(s) && AllEnabled(s, ops) && BehindHeader(s, a)
    ensures ApplyAll(s, ops).mem[a] == Expected(s, ops, a)
    decreases |ops|
  {
    if ops != [] {
      ApplyKeepsReady(s, ops[0]);
      StepFrame(s, ops, a);
      RunFrame(Apply(s, ops[0]), ops[1..], a);
    }
  }

  // ----- reading back -----

  /** Two memories hold the same image. */
  predicate SameWindow(a: memory, b: memory, base: nat, high: int)
    requires base <= high <= MEM_SIZE
  {
    a[base..high] == b[base..high]
  }

  /** Memories that agree on a range agree on every part of it. */
  lemma SubSlice(a: memory, b: memory, lo: nat, hi: nat, from: nat, to: nat)
    requires lo <= from <= to <= hi <= MEM_SIZE && a[lo..hi] == b[lo..hi]
    ensures a[from..to] == b[from..to]
  {
    forall k | from <= k < to ensures a[k] == b[k] {
      assert a[lo..hi][k - lo] == b[lo..hi][k - lo];
    }
  }

  /** The checks and the size that sign() records, against an image and the arrays. */
  predicate ChecksHold(mem: memory, base: nat, high: int, q: Request)
    requires base + HEADER_SIZE <= high <= MEM_SIZE
  {
    var h := HeaderOf(mem, base);
    && h[IMG_CHK..TAG] == q.sha(mem[base + TAG..high])[..4]
    && h[FUSES_CHK..INFO_CHK] == q.sha(WordsBytes(q.fuses))[..4]
    && h[INFO_CHK..HEADER_SIZE] == q.sha(WordsBytes(q.infos))[..4]
    && Little(h[IMAGE_SIZE..RO_BASE]) == high - base
  }

  /** The signature in an image is that of its own hashes: reducing the stored
      words with the stored key gives it modulo the key. */
  ghost predicate SignatureHolds(mem: memory, base: nat, high: int, q: Request)
    requires base + HEADER_SIZE <= high <= MEM_SIZE && q.Valid()
  {
    var text := SignedText(mem, base, high, q);
    && (exists raw: nat :: Signs(q, text, raw))
    && forall raw: nat :: Signs(q, text, raw) ==> ReadsAs(HeaderOf(mem, base), raw, q.key.modulus)
  }

  /** A reader of the header gets the number modulo n. */
  predicate ReadsAs(h: header, raw: nat, n: nat)
    requires n > 0
  {
    ReadSignature(h) == raw % n
  }

  lemma SameHeader(a: memory, b: memory, base: nat, high: int, q: Request)
    requires base + HEADER_SIZE <= high <= MEM_SIZE && SameWindow(a, b, base, high)
    ensures HeaderOf(a, base) == HeaderOf(b, base)
    ensures a[base + TAG..high] == b[base + TAG..high] && SignedText(a, base, high, q) == SignedText(b, base, high, q)
  {
    SubSlice(a, b, base, high, base, base + HEADER_SIZE);
    SubSlice(a, b, base, high, base + TAG, high);
  }

  /** The key is one a reader can use: odd, of header size, with its n0inv as id. */
  predicate Usable(q: Request)
    requires q.Valid()
  {
    && q.key.modulus % 2 == 1 && q.key.modulus < Radix(RWORDS)
    && q.hdr[KEYID..KEY] == WordBytes(N0Inv(q.key.modulus))
  }

  /** `r` is what is read back of the image `s` after it was signed as `q` says. */
  ghost predicate ReadsBack(s: State, q: Request, done: bool, r: State)
    requires 0 <= s.base && s.base + HEADER_SIZE <= s.high <= MEM_SIZE && q.Valid()
  {
    && SameImage(s, r)
    && ChecksHold(r.mem, r.base, r.high, q)
    && (done <==> (AsksSigner(q.key) ==> q.key.signer(SignedText(r.mem, r.base, r.high, q)).Some?))
    && (done && Usable(q) ==> SignatureHolds(r.mem, r.base, r.high, q))
  }

  lemma RawIsRead(t: State, q: Request, raw: nat)
    requires Signable(t) && q.Valid() && Usable(q)
    requires Signs(q, SignedText(SignImage(t, q).0.mem, t.base, t.high, q), raw)
    ensures ReadsAs(HeaderOf(SignImage(t, q).0.mem, t.base), raw, q.key.modulus)
  {
    ReaderRecoversSignature(t, q, raw);
  }

  lemma SignatureIsHeld(t: State, q: Request)
    requires Signable(t) && q.Valid() && SignImage(t, q).1 && Usable(q)
    ensures SignatureHolds(SignImage(t, q).0.mem, t.base, t.high, q)
  {
    var s := SignImage(t, q).0;
    SignsIff(t, q);
    forall raw: nat | Signs(q, SignedText(s.mem, t.base, t.high, q), raw)
      ensures ReadsAs(HeaderOf(s.mem, t.base), raw, q.key.modulus)
    {
      RawIsRead(t, q, raw);
    }
  }

  lemma SignedHolds(t: State, q: Request)
    requires Signable(t) && q.Valid()
    ensures var (s, done) := SignImage(t, q);
      && ChecksHold(s.mem, t.base, t.high, q)
      && (done <==> (AsksSigner(q.key) ==> q.key.signer(SignedText(s.mem, t.base, t.high, q)).Some?))
      && (done && Usable(q) ==> SignatureHolds(s.mem, t.base, t.high, q))
  {
    var (s, done) := SignImage(t, q);
    ChecksAreHashes(t, q);
    SignsIff(t, q);
    if done && Usable(q) {
      SignatureIsHeld(t, q);
    }
  }

  /** Any ready image that is signed and printed reads back so. */
  lemma SignedReadBack(t: State, q: Request, stack: buffer)
    requires Ready(t) && Signable(t) && q.Valid()
    ensures var (s, done) := SignImage(t, q);
      && Ready(s) && s.base == t.base && s.high == t.high
      && ReadsBack(s, q, done, FromIntelHex(Fresh(), Some(Print(s)), true, stack))
  {
    var (s, done) := SignImage(t, q);
    var r := FromIntelHex(Fresh(), Some(Print(s)), true, stack);
    SignKeepsReady(t, q);
    ReadyImage(s, stack);
    SignedHolds(t, q);
    SameHeader(r.mem, s.mem, s.base, s.high, q);
  }

  /** What is read back of the image behind its header after a run. */
  predicate BodyReadsBack(start: State, ops: seq<Op>, high: int, r: State)
    requires 0 <= start.base && high <= MEM_SIZE
  {
    forall a: nat :: start.base + HEADER_SIZE <= a < high ==>
      r.mem[a] == Expected(start, ops, a)
  }

  lemma RunBody(start: State, ops: seq<Op>, q: Request, r: State)
    requires Ready(start) && AllEnabled(start, ops) && Enabled(ApplyAll(start, ops), SignWith(q))
    requires SameImage(SignImage(ApplyAll(start, ops), q).0, r)
    ensures BodyReadsBack(start, ops, ApplyAll(start, ops).high, r)
  {
    var t := ApplyAll(start, ops);
    RunKeepsReady(start, ops);
    forall a: nat | t.base + HEADER_SIZE <= a < t.high
      ensures r.mem[a] == Expected(start, ops, a)
    {
      RunFrame(start, ops, a);
      SignKeepsByte(t, q, a);
      SameByte(SignImage(t, q).0, r, a);
    }
  }

  lemma SameByte(s: State, r: State, a: nat)
    requires SameImage(s, r) && 0 <= s.base <= a < s.high <= MEM_SIZE
    ensures r.mem[a] == s.mem[a]
  {
    assert r.mem[s.base..s.high][a - s.base] == s.mem[s.base..s.high][a - s.base];
  }

  /** The outcome of a run on a loaded image, signed a last time and read back. */
  ghost predicate RunReadsBack(start: State, ops: seq<Op>, q: Request, stack: buffer)
    requires Ready(start) && AllEnabled(start, ops) && Enabled(ApplyAll(start, ops), SignWith(q))
  {
    var (s, done) := SignImage(ApplyAll(start, ops), q);
    && Ready(s) && s.base == start.base && s.high == (if Pads(ops) then PAD_END else start.high)
    && var r := FromIntelHex(Fresh(), Some(Print(s)), true, stack);
    && ReadsBack(s, q, done, r)
    && BodyReadsBack(start, ops, s.high, r)
  }

  lemma RunIsReadBack(start: State, ops: seq<Op>, q: Request, stack: buffer)
    requires Ready(start) && AllEnabled(start, ops) && Enabled(ApplyAll(start, ops), SignWith(q))
    ensures RunReadsBack(start, ops, q, stack)
  {
    var t := ApplyAll(start, ops);
    RunKeepsReady(start, ops);
    SignedReadBack(t, q, stack);
    RunBody(start, ops, q, FromIntelHex(Fresh(), Some(Print(SignImage(t, q).0)), true, stack));
  }

  /** The whole pipeline: load any ELF file that stores something, pad and sign
      in any order, sign a last time, print, and read the text back. The text
      gives the window, the words check, the signature is that of what was read,
      and behind the header each byte is the last padding's or the loaded one. */
  lemma PipelineReadsBack(
      file: seq<byte>, sections: seq<Section>, segments: seq<Segment>, ops: seq<Op>, q: Request,
      start: State, stack: buffer)
    requires |file| >= 4 && Contains(file, segments) && BytesWord(file[..4]) == ELF_MAGIC
    requires Hits(AllWrites(file, segments)) != {}
    requires start == FromElf(Fresh(), file, sections, segments).0
    requires AllEnabled(start, ops) && Enabled(ApplyAll(start, ops), SignWith(q))
    ensures Ready(start) && RunReadsBack(start, ops, q, stack)
    ensures forall a :: InRange(a) ==> Overlaid(start.mem[a], 0xff, file, segments, a)
  {
    LoadedIsReady(file, sections, segments);
    RunIsReadBack(start, ops, q, stack);
    forall a | InRange(a) ensures Overlaid(start.mem[a], 0xff, file, segments, a) {
      LoadedMemory(file, sections, segments, a);
    }
  }
}
