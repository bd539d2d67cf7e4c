/** The image main writes: its header is prepared from the loaded image, the key
    and the manifest, and says so when it is finished. */
module MainImage {
  import opened Common
  import opened ByteOrder
  import opened Arithmetic
  import opened PublicKey
  import opened ImageState
  import opened ElfLoad
  import opened IntelHex
  import opened HexRoundTrip
  import opened Signing
  import opened SignedBytes
  import opened SignedManifest
  import opened ImageRuns
  import opened Manifest
  import opened Bitmap
  import FuseLaws
  import InfoValues

  const RO_MAX: int := RO_BASE + 4
  const RX_BASE: int := RO_BASE + 8
  const RX_MAX: int := RO_BASE + 12

  /** The conversion of an int to an unsigned word. */
  function ToWord(x: int): word {
    x % WORD
  }

  /** The fields main takes from the key and the image; the executable bound gets
      room for instruction prefetch. */
  function MainHeader(hdr: header, s: State, key: Key): header {
    var keyed := WriteAt(hdr, KEYID, WordBytes(N0Inv(key.modulus)));
    var a := WriteAt(keyed, RO_BASE, WordBytes(ToWord(s.roBase)));
    var b := WriteAt(a, RO_MAX, WordBytes(ToWord(s.roMax)));
    var c := WriteAt(b, RX_BASE, WordBytes(ToWord(s.rxBase)));
    WriteAt(c, RX_MAX, WordBytes(ToWord(s.rxMax + 12)))
  }

  lemma MainFields(hdr: header, s: State, key: Key)
    ensures var h := MainHeader(hdr, s, key);
      && h[KEYID..KEY] == WordBytes(N0Inv(key.modulus))
      && h[RO_BASE..RO_MAX] == WordBytes(ToWord(s.roBase))
      && h[RO_MAX..RX_BASE] == WordBytes(ToWord(s.roMax))
      && h[RX_BASE..RX_MAX] == WordBytes(ToWord(s.rxBase))
      && h[RX_MAX..FUSEMAP] == WordBytes(ToWord(s.rxMax + 12))
  {
  }

  /** What main gives to sign(). */
  function MainRequest(
      hdr: header, s: State, t: Table, fuses: seq<entry>, infos: seq<entry>, sha: seq<byte> -> digest, key: Key): Request
    requires FuseLaws.Compilable(t, fuses) && InfoValues.AllIndexed(infos)
  {
    RequestFor(MainHeader(hdr, s, key), t, fuses, infos, sha, key)
  }

  lemma SameFront(a: header, b: header, lo: nat, hi: nat)
    requires a[..FUSEMAP] == b[..FUSEMAP] && lo <= hi <= FUSEMAP
    ensures a[lo..hi] == b[lo..hi]
  {
    assert a[..FUSEMAP][lo..hi] == a[lo..hi];
    assert b[..FUSEMAP][lo..hi] == b[lo..hi];
  }

  /** Prepared fields behind the computed ones are found in the finished header. */
  lemma PreparedField(s: State, q: Request, lo: nat, hi: nat)
    requires Signable(s) && q.Valid() && RO_BASE <= lo <= hi <= FUSES_CHK
    ensures HeaderOf(SignImage(s, q).0.mem, s.base)[lo..hi] == q.hdr[lo..hi]
  {
    HeaderIsFinal(s, q);
    PreparedBytes(s, q, lo, hi);
    TailKept(s, q, lo, hi);
  }

  lemma PreparedWord(s: State, q: Request, lo: nat, x: int)
    requires Signable(s) && q.Valid() && RO_BASE <= lo && lo + 4 <= FUSES_CHK
    requires q.hdr[lo..lo + 4] == WordBytes(ToWord(x)) && 0 <= x < WORD
    ensures Little(HeaderOf(SignImage(s, q).0.mem, s.base)[lo..lo + 4]) == x
  {
    PreparedField(s, q, lo, lo + 4);
    WordIsLittle(ToWord(x));
    DivModUnique(x, WORD, 0, x);
  }

  predicate BoundsFit(s: State) {
    0 <= s.roBase < WORD && 0 <= s.roMax < WORD && 0 <= s.rxBase < WORD && 0 <= s.rxMax + 12 < WORD
  }

  /** The finished header has the bounds of the image it was prepared from. */
  lemma BoundsInHeader(s: State, q: Request, hdr: header, from: State, key: Key)
    requires Signable(s) && q.Valid() && BoundsFit(from) && q.hdr[..FUSEMAP] == MainHeader(hdr, from, key)[..FUSEMAP]
    ensures var h := HeaderOf(SignImage(s, q).0.mem, s.base);
      && Little(h[RO_BASE..RO_MAX]) == from.roBase && Little(h[RO_MAX..RX_BASE]) == from.roMax
      && Little(h[RX_BASE..RX_MAX]) == from.rxBase && Little(h[RX_MAX..FUSEMAP]) == from.rxMax + 12
  {
    var m := MainHeader(hdr, from, key);
    MainFields(hdr, from, key);
    SameFront(q.hdr, m, RO_BASE, RO_MAX);
    SameFront(q.hdr, m, RO_MAX, RX_BASE);
    SameFront(q.hdr, m, RX_BASE, RX_MAX);
    SameFront(q.hdr, m, RX_MAX, FUSEMAP);
    PreparedWord(s, q, RO_BASE, from.roBase);
    PreparedWord(s, q, RO_MAX, from.roMax);
    PreparedWord(s, q, RX_BASE, from.rxBase);
    PreparedWord(s, q, RX_MAX, from.rxMax + 12);
  }

  lemma BoundsAreSmall(s: State, sections: seq<Section>, segments: seq<Segment>)
    requires Ready(s) && IsSegmentBound(s.roMax, segments) && IsSectionBound(s.rxMax, sections)
    ensures BoundsFit(s)
  {
  }

  /** A header that starts as main's makes any odd key of header size usable. */
  lemma MainKeyIsUsable(q: Request, hdr: header, s: State)
    requires q.Valid() && q.hdr[..FUSEMAP] == MainHeader(hdr, s, q.key)[..FUSEMAP]
    requires q.key.modulus % 2 == 1 && q.key.modulus < Radix(RWORDS)
    ensures Usable(q)
  {
    MainFields(hdr, s, q.key);
    SameFront(q.hdr, MainHeader(hdr, s, q.key), KEYID, KEY);
  }

  // ----- from the files to the finished image -----

  /** The bounds in a finished header are those of the file: the image's start, the
      greatest end of its data, the start of code, and the greatest end of code. */
  ghost predicate BoundsOf(h: header, base: int, sections: seq<Section>, segments: seq<Segment>) {
    && Little(h[RO_BASE..RO_MAX]) == 0x4_0000 + base
    && IsSegmentBound(Little(h[RO_MAX..RX_BASE]), segments)
    && Little(h[RX_BASE..RX_MAX]) == 0x4_0000 + base + 1024
    && IsSectionBound(Little(h[RX_MAX..FUSEMAP]) - 12, sections)
  }

  lemma BoundsStay(start: State, ops: seq<Op>, sections: seq<Section>, segments: seq<Segment>)
    requires Ready(start) && AllEnabled(start, ops)
    requires IsSegmentBound(start.roMax, segments) && IsSectionBound(start.rxMax, sections)
    ensures var s := ApplyAll(start, ops);
      && Ready(s) && BoundsFit(s) && s.base == start.base
      && s.roBase == 0x4_0000 + s.base && s.rxBase == 0x4_0000 + s.base + 1024
      && IsSegmentBound(s.roMax, segments) && IsSectionBound(s.rxMax, sections)
  {
    RunKeepsReady(start, ops);
    BoundsAreSmall(ApplyAll(start, ops), sections, segments);
  }

  lemma HeaderBounds(
      s: State, q: Request, hdr: header, key: Key, sections: seq<Section>, segments: seq<Segment>)
    requires Signable(s) && q.Valid() && BoundsFit(s) && q.hdr[..FUSEMAP] == MainHeader(hdr, s, key)[..FUSEMAP]
    requires s.roBase == 0x4_0000 + s.base && s.rxBase == 0x4_0000 + s.base + 1024
    requires IsSegmentBound(s.roMax, segments) && IsSectionBound(s.rxMax, sections)
    ensures BoundsOf(HeaderOf(SignImage(s, q).0.mem, s.base), s.base, sections, segments)
  {
    BoundsInHeader(s, q, hdr, s, key);
  }

  /** From the files to the text: whatever ELF file stores something, however the
      image was padded since, unless that left it empty, and whichever manifest
      compiles, the image main signs carries the bounds of the file, the manifest
      and the checks, reads back from its text, and, for an odd key of header size,
      its signature is that of what was read back. */
  lemma MainWrites(
      file: seq<byte>, sections: seq<Section>, segments: seq<Segment>, start: State, ops: seq<Op>,
      hdr: header, t: Table, fuses: seq<entry>, infos: seq<entry>, sha: seq<byte> -> digest, key: Key, stack: buffer)
    requires |file| >= 4 && Contains(file, segments) && BytesWord(file[..4]) == ELF_MAGIC
    requires Hits(AllWrites(file, segments)) != {} && start == FromElf(Fresh(), file, sections, segments).0
    requires AllEnabled(start, ops) && ApplyAll(start, ops).base < ApplyAll(start, ops).high
    requires FuseLaws.Compilable(t, fuses) && InfoValues.AllIndexed(infos) && key.modulus > 0
    ensures var s := ApplyAll(start, ops);
      var q := MainRequest(hdr, s, t, fuses, infos, sha, key);
      && Ready(start) && Enabled(s, SignWith(q)) && RunReadsBack(start, ops, q, stack)
      && BoundsOf(HeaderOf(SignImage(s, q).0.mem, s.base), start.base, sections, segments)
      && (forall e :: e in fuses <==> ReadsFuse(MapAt(SignImage(s, q).0.mem, s.base, FUSEMAP), q.fuses, t, e))
      && (key.modulus % 2 == 1 && key.modulus < Radix(RWORDS) ==> Usable(q))
  {
    var s := ApplyAll(start, ops);
    var q := MainRequest(hdr, s, t, fuses, infos, sha, key);
    RequestCarries(MainHeader(hdr, s, key), t, fuses, infos, sha, key);
    LoadedIsReady(file, sections, segments);
    LoadedBounds(file, sections, segments);
    MagicIsElf(file[..4]);
    BoundsStay(start, ops, sections, segments);
    ReadyImage(s, stack);
    RunIsReadBack(start, ops, q, stack);
    HeaderBounds(s, q, hdr, key, sections, segments);
    forall e ensures e in fuses <==> ReadsFuse(MapAt(SignImage(s, q).0.mem, s.base, FUSEMAP), q.fuses, t, e) {
      ManifestReadsBack(s, q, t, fuses, infos, e);
    }
    if key.modulus % 2 == 1 && key.modulus < Radix(RWORDS) {
      MainKeyIsUsable(q, hdr, s);
    }
  }
}
