/** The compiled manifest inside the signed image: what a reader finds of it, and
    what the signed hashes commit to. */
module SignedManifest {
  import opened Common
  import opened Bitmap
  import opened FuseBits
  import opened FuseTable
  import opened Manifest
  import opened ImageState
  import opened PublicKey
  import opened Signing
  import FuseLaws
  import InfoValues

  const FUSEMAP: int := RO_BASE + 16
  const INFOMAP: int := FUSEMAP + 16
  const EPOCH: int := INFOMAP + 16

  // ----- words and bit vectors -----

  function Words(v: seq<bv32>): (ws: seq<word>)
    ensures |ws| == |v|
  {
    seq(|v|, i requires 0 <= i < |v| => v[i] as int)
  }

  function Vectors(ws: seq<word>): (v: seq<bv32>)
    ensures |v| == |ws|
  {
    seq(|ws|, i requires 0 <= i < |ws| => ws[i] as bv32)
  }

  lemma VectorsOfWords(v: seq<bv32>)
    ensures Vectors(Words(v)) == v
  {
  }

  lemma WordsBytesDiffer(a: seq<word>, b: seq<word>)
    requires WordsBytes(a) == WordsBytes(b)
    ensures a == b
  {
    WordsBytesRoundTrip(a);
    WordsBytesRoundTrip(b);
  }

  // ----- the request main makes -----

  /** The arrays and header bitmaps are compiled from the manifest. */
  predicate Carries(q: Request, t: Table, fuses: seq<entry>, infos: seq<entry>) {
    && FuseLaws.Compilable(t, fuses) && InfoValues.AllIndexed(infos)
    && q.fuses == Words(FuseValues(t, fuses)) && q.infos == Words(InfoValues.InfoArray(infos))
    && q.hdr[FUSEMAP..INFOMAP] == WordsBytes(Words(FuseLaws.Marks(t, fuses)))
    && q.hdr[INFOMAP..EPOCH] == WordsBytes(Words(InfoValues.Marks(infos)))
  }

  /** The request made of compiled arrays: the bitmaps go into the header that
      main has prepared otherwise. */
  function RequestFor(hdr: header, t: Table, fuses: seq<entry>, infos: seq<entry>, sha: seq<byte> -> digest, key: Key): Request
    requires FuseLaws.Compilable(t, fuses) && InfoValues.AllIndexed(infos)
  {
    var marked := WriteAt(hdr, FUSEMAP, WordsBytes(Words(FuseLaws.Marks(t, fuses))));
    Request(WriteAt(marked, INFOMAP, WordsBytes(Words(InfoValues.Marks(infos)))),
            Words(FuseValues(t, fuses)), Words(InfoValues.InfoArray(infos)), sha, key)
  }

  lemma RequestCarries(hdr: header, t: Table, fuses: seq<entry>, infos: seq<entry>, sha: seq<byte> -> digest, key: Key)
    requires FuseLaws.Compilable(t, fuses) && InfoValues.AllIndexed(infos) && key.modulus > 0
    ensures var q := RequestFor(hdr, t, fuses, infos, sha, key);
      && q.Valid() && Carries(q, t, fuses, infos)
      && q.hdr[..FUSEMAP] == hdr[..FUSEMAP] && q.hdr[EPOCH..] == hdr[EPOCH..]
  {
    var fusemap, infomap := WordsBytes(Words(FuseLaws.Marks(t, fuses))), WordsBytes(Words(InfoValues.Marks(infos)));
    var marked := WriteAt(hdr, FUSEMAP, fusemap);
    SliceSame(hdr, FUSEMAP, fusemap);
    SliceOther(marked, INFOMAP, infomap, FUSEMAP, INFOMAP);
    SliceSame(marked, INFOMAP, infomap);
    UnwrittenEnds(hdr, FUSEMAP, fusemap, INFOMAP, infomap);
  }

  lemma UnwrittenEnds(h: header, pos: nat, a: seq<byte>, next: nat, b: seq<byte>)
    requires pos + |a| == next && next + |b| <= HEADER_SIZE
    ensures var r := WriteAt(WriteAt(h, pos, a), next, b);
      r[..pos] == h[..pos] && r[next + |b|..] == h[next + |b|..]
  {
  }

  // ----- what a reader of the image finds -----

  /** A bitmap of the header in an image that starts at base. */
  function MapAt(mem: memory, base: nat, off: nat): bitmap
    requires base + off + 16 <= MEM_SIZE
  {
    Vectors(BytesWords(mem[base + off..base + off + 16]))
  }

  lemma MapInHeader(s: State, q: Request, off: nat, m: bitmap)
    requires Signable(s) && q.Valid() && RO_BASE <= off && off + 16 <= FUSES_CHK
    requires q.hdr[off..off + 16] == WordsBytes(Words(m))
    ensures MapAt(SignImage(s, q).0.mem, s.base, off) == m
  {
    FieldBehindTag(s, q, off, off + 16);
    PreparedBytes(s, q, off, off + 16);
    WordsBytesRoundTrip(Words(m));
    VectorsOfWords(m);
  }

  /** The reader's test: the fuse is marked, and the array holds the value. */
  predicate ReadsFuse(marks: bitmap, fuses: seq<word>, t: Table, e: entry)
    requires |fuses| == ARRAY_MAX
  {
    && e.0 in t.ids && t.ids[e.0] < ARRAY_MAX && Width(t, e.0) < 64
    && IsMarked(marks, t.ids[e.0])
    && e.1 == Under(Vectors(fuses)[t.ids[e.0]], Mask(Width(t, e.0)))
  }

  lemma NamedFuseIsRead(t: Table, es: seq<entry>, e: entry)
    requires FuseLaws.Compilable(t, es) && e in es
    ensures ReadsFuse(FuseLaws.Marks(t, es), Words(FuseValues(t, es)), t, e)
  {
    FuseLaws.DecodeAt(t, es, e);
    FuseLaws.MarkedIffNamed(t, es, IdOf(t, e));
    assert FuseLaws.Named(t, es, IdOf(t, e));
    VectorsOfWords(FuseValues(t, es));
  }

  lemma ReadFuseIsNamed(t: Table, es: seq<entry>, e: entry)
    requires FuseLaws.Compilable(t, es)
    requires ReadsFuse(FuseLaws.Marks(t, es), Words(FuseValues(t, es)), t, e)
    ensures e in es
  {
    var i := t.ids[e.0];
    FuseLaws.MarkedIffNamed(t, es, i);
    var f :| f in es && t.ids[f.0] == i;
    FuseLaws.DecodeAt(t, es, f);
    VectorsOfWords(FuseValues(t, es));
    assert e.0 == f.0;
  }

  /** The finished image and the fuse array give the manifest back: a name has a
      value exactly when its bit is set and the array holds the value for it. */
  lemma ManifestReadsBack(s: State, q: Request, t: Table, fuses: seq<entry>, infos: seq<entry>, e: entry)
    requires Signable(s) && q.Valid() && Carries(q, t, fuses, infos)
    ensures e in fuses <==> ReadsFuse(MapAt(SignImage(s, q).0.mem, s.base, FUSEMAP), q.fuses, t, e)
  {
    MapInHeader(s, q, FUSEMAP, FuseLaws.Marks(t, fuses));
    if e in fuses {
      NamedFuseIsRead(t, fuses, e);
    }
    if ReadsFuse(FuseLaws.Marks(t, fuses), q.fuses, t, e) {
      ReadFuseIsNamed(t, fuses, e);
    }
  }

  /** The info bitmap of the image marks the indices the manifest spells, and the
      array holds the exclusive or of their values over the ignore word. */
  lemma InfosReadBack(s: State, q: Request, t: Table, fuses: seq<entry>, infos: seq<entry>, i: index)
    requires Signable(s) && q.Valid() && Carries(q, t, fuses, infos)
    ensures IsMarked(MapAt(SignImage(s, q).0.mem, s.base, INFOMAP), i)
       <==> exists e :: e in infos && InfoValues.IndexOf(e.0) == i
    ensures Vectors(q.infos)[i] == INFO_IGNORE ^ InfoValues.XorAt(infos, i)
  {
    MapInHeader(s, q, INFOMAP, InfoValues.Marks(infos));
    InfoValues.InfosInAnyOrder(infos, infos, EMPTY, i);
    EmptyHasNoMark(i);
    VectorsOfWords(InfoValues.InfoArray(infos));
  }

  // ----- what the signature commits to -----

  /** The hash function tells the two inputs apart. */
  predicate Told(sha: seq<byte> -> digest, a: seq<byte>, b: seq<byte>) {
    sha(a) == sha(b) ==> a == b
  }

  /** What is hashed of an image. */
  function HashedBytes(s: State, q: Request): seq<byte>
    requires Signable(s)
  {
    HashedHeader(s, q)[TAG..] + Body(s)
  }

  lemma HashesDiffer(a: digest, b: digest, c: digest, x: digest, y: digest, z: digest)
    requires Hashes(a, b, c) == Hashes(x, y, z)
    ensures a == x && b == y && c == z
  {
    assert Hashes(a, b, c)[..32] == a && Hashes(x, y, z)[..32] == x;
    assert Hashes(a, b, c)[32..64] == b && Hashes(x, y, z)[32..64] == y;
    assert Hashes(a, b, c)[64..] == c && Hashes(x, y, z)[64..] == z;
  }

  lemma SplitAlike(a: seq<byte>, b: seq<byte>, x: seq<byte>, y: seq<byte>)
    requires |a| == |x| && a + b == x + y
    ensures a == x && b == y
  {
    assert (a + b)[..|a|] == a && (x + y)[..|a|] == x;
    assert (a + b)[|a|..] == b && (x + y)[|a|..] == y;
  }

  /** Nothing that is hashed tells the requests and images apart. */
  predicate SameSigned(s: State, q: Request, s': State, q': Request)
    requires Signable(s) && Signable(s')
  {
    && q.fuses == q'.fuses && q.infos == q'.infos
    && HashedHeader(s, q)[TAG..] == HashedHeader(s', q')[TAG..] && Body(s) == Body(s')
  }

  /** Equal signed messages are about equal arrays, header fields and bodies,
      unless the hash function fails to tell two of the hashed inputs apart. */
  lemma MessageCommits(s: State, q: Request, s': State, q': Request)
    requires Signable(s) && q.Valid() && Signable(s') && q'.Valid() && q.sha == q'.sha
    requires Told(q.sha, HashedBytes(s, q), HashedBytes(s', q'))
    requires Told(q.sha, WordsBytes(q.fuses), WordsBytes(q'.fuses))
    requires Told(q.sha, WordsBytes(q.infos), WordsBytes(q'.infos))
    ensures Message(s, q) == Message(s', q') <==> SameSigned(s, q, s', q')
  {
    if Message(s, q) == Message(s', q') {
      HashesDiffer(ImageHash(s, q), FusesHash(q), InfoHash(q), ImageHash(s', q'), FusesHash(q'), InfoHash(q'));
      WordsBytesDiffer(q.fuses, q'.fuses);
      WordsBytesDiffer(q.infos, q'.infos);
      SplitAlike(HashedHeader(s, q)[TAG..], Body(s), HashedHeader(s', q')[TAG..], Body(s'));
    }
  }

  lemma SameField(a: header, b: header, lo: nat, hi: nat)
    requires a[TAG..] == b[TAG..] && TAG <= lo <= hi <= HEADER_SIZE
    ensures a[lo..hi] == b[lo..hi]
  {
    assert a[TAG..][lo - TAG..hi - TAG] == a[lo..hi];
    assert b[TAG..][lo - TAG..hi - TAG] == b[lo..hi];
  }

  lemma SameMap(s: State, q: Request, s': State, q': Request, m: bitmap, m': bitmap)
    requires Signable(s) && Signable(s') && SameSigned(s, q, s', q')
    requires q.hdr[FUSEMAP..INFOMAP] == WordsBytes(Words(m)) && q'.hdr[FUSEMAP..INFOMAP] == WordsBytes(Words(m'))
    ensures m == m'
  {
    SameField(HashedHeader(s, q), HashedHeader(s', q'), FUSEMAP, INFOMAP);
    PreparedBytes(s, q, FUSEMAP, INFOMAP);
    PreparedBytes(s', q', FUSEMAP, INFOMAP);
    WordsBytesDiffer(Words(m), Words(m'));
    VectorsOfWords(m);
    VectorsOfWords(m');
  }

  /** So the signed message commits to the manifest: images signed for different
      fuse manifests carry different messages. */
  lemma MessageCommitsToManifest(
      s: State, q: Request, fuses: seq<entry>, infos: seq<entry>,
      s': State, q': Request, fuses': seq<entry>, infos': seq<entry>, t: Table)
    requires Signable(s) && q.Valid() && Carries(q, t, fuses, infos)
    requires Signable(s') && q'.Valid() && Carries(q', t, fuses', infos') && q.sha == q'.sha
    requires Told(q.sha, HashedBytes(s, q), HashedBytes(s', q'))
    requires Told(q.sha, WordsBytes(q.fuses), WordsBytes(q'.fuses))
    requires Told(q.sha, WordsBytes(q.infos), WordsBytes(q'.infos))
    requires Message(s, q) == Message(s', q')
    ensures forall e :: e in fuses <==> e in fuses'
  {
    MessageCommits(s, q, s', q');
    SameMap(s, q, s', q', FuseLaws.Marks(t, fuses), FuseLaws.Marks(t, fuses'));
    VectorsOfWords(FuseValues(t, fuses));
    VectorsOfWords(FuseValues(t, fuses'));
    FuseLaws.CompilationIsInjective(t, fuses, fuses');
  }
}
