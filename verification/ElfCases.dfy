/** ELF files that main accepts and that do not come out as one would expect. */
module ElfCases {
  import opened Common
  import opened Arithmetic
  import opened ImageState
  import opened ElfLoad
  import opened IntelHex
  import opened HexRoundTrip
  import opened HexChecksum

  /** A file with one segment: its bytes follow the magic word. */
  function BlockFile(data: seq<byte>): seq<byte> {
    [0x7f, 0x45, 0x4c, 0x46] + data
  }

  function BlockSegment(adr: nat, size: nat): Segment
    requires adr < FLASH_TOP && size < FLASH_TOP
  {
    Segment(FLASH_BASE + adr, 4, size)
  }

  lemma BlockIsElf(adr: nat, data: seq<byte>)
    requires adr < FLASH_TOP && |data| < FLASH_TOP && FLASH_BASE + adr + |data| < FLASH_TOP
    ensures var file, p := BlockFile(data), BlockSegment(adr, |data|);
      && Kept(p) && NoWrap([p]) && Contains(file, [p])
      && BytesWord(file[..4]) == ELF_MAGIC
      && AllWrites(file, [p]) == Run(adr, data)
  {
    var file, p := BlockFile(data), BlockSegment(adr, |data|);
    assert file[..4] == [0x7f, 0x45, 0x4c, 0x46];
    assert [p][..0] == [];
    forall i: nat | i < |data| ensures SegmentWrites(file, p, p.filesz)[i] == Run(adr, data)[i] {
      TargetIsExact(p, i);
      assert file[4 + i] == data[i];
    }
    assert AllWrites(file, [p]) == [] + SegmentWrites(file, p, p.filesz);
  }

  /** The image loaded from such a file. */
  function BlockImage(adr: nat, data: seq<byte>): State
    requires adr < FLASH_TOP && |data| < FLASH_TOP && FLASH_BASE + adr + |data| < FLASH_TOP
  {
    BlockIsElf(adr, data);
    FromElf(Fresh(), BlockFile(data), [], [BlockSegment(adr, |data|)]).0
  }

  lemma BlockLoads(adr: nat, data: seq<byte>)
    requires data != [] && adr + |data| <= MEM_SIZE
    ensures var s := BlockImage(adr, data);
      && s.ok && s.mem == WriteAt(Fresh().mem, adr, data)
      && s.base == RoundDown(adr) && s.high == RoundUp(adr + |data| - 1)
  {
    BlockIsElf(adr, data);
    RunEffect(Fresh(), adr, data);
  }

  /** One byte at 2048: it is loaded and counts as in range, but the image ends
      before it; indeed the image is empty. */
  lemma LastByteIsLost()
    ensures var s := BlockImage(2048, [0]);
      s.ok && s.mem[2048] == 0 && s.base == s.high == 2048
  {
    BlockLoads(2048, [0]);
  }

  // ----- segments above the memory -----

  lemma TargetsInRange(p: Segment)
    requires Kept(p) && p.paddr + p.filesz < U64
    ensures (forall n: nat :: n < p.filesz ==> InRange(Target(p, n)))
       <==> (p.filesz > 0 ==> p.paddr + p.filesz <= FLASH_BASE + MEM_SIZE)
  {
    forall n: nat | n < p.filesz ensures Target(p, n) == p.paddr + n - FLASH_BASE {
      TargetIsExact(p, n);
    }
    if p.filesz > 0 {
      assert Target(p, p.filesz - 1) == p.paddr + p.filesz - 1 - FLASH_BASE;
    }
  }

  /** All stores of a load go into the memory. */
  ghost predicate AllInRange(ws: seq<write>) {
    forall w :: w in ws ==> InRange(w.0)
  }

  lemma SegmentInRange(file: seq<byte>, p: Segment)
    requires Kept(p) && p.paddr + p.filesz < U64 && p.offset + p.filesz <= |file|
    ensures AllInRange(SegmentWrites(file, p, p.filesz))
       <==> (p.filesz > 0 ==> p.paddr + p.filesz <= FLASH_BASE + MEM_SIZE)
  {
    TargetsInRange(p);
    var ws := SegmentWrites(file, p, p.filesz);
    forall n: nat | n < p.filesz ensures ws[n] in ws && ws[n].0 == Target(p, n) {
    }
  }

  predicate EndsInMemory(p: Segment) {
    Kept(p) && p.filesz > 0 ==> p.paddr + p.filesz <= FLASH_BASE + MEM_SIZE
  }

  lemma {:induction false} LoadInRange(file: seq<byte>, segments: seq<Segment>)
    requires Contains(file, segments) && NoWrap(segments)
    ensures AllInRange(AllWrites(file, segments)) <==> forall p :: p in segments ==> EndsInMemory(p)
    decreases |segments|
  {
    if segments != [] {
      var p, init := segments[|segments| - 1], segments[..|segments| - 1];
      assert segments == init + [p] && p in segments;
      assert forall q :: q in init ==> q in segments;
      LoadInRange(file, init);
      if Kept(p) {
        SegmentInRange(file, p);
        var a, b := AllWrites(file, init), SegmentWrites(file, p, p.filesz);
        assert AllWrites(file, segments) == a + b;
        assert AllInRange(a + b) <==> AllInRange(a) && AllInRange(b) by {
          assert forall w :: w in a + b <==> w in a || w in b;
        }
      } else {
        assert AllWrites(file, segments) == AllWrites(file, init);
      }
    }
  }

  /** The flash range that decides which segments are kept is far larger than the
      memory. fromElf reports success in any case, but the segments are loaded in
      full, and the image keeps its success flag, exactly when every nonempty
      kept segment ends inside the memory. */
  lemma LoadedInFullIff(file: seq<byte>, sections: seq<Section>, segments: seq<Segment>)
    requires |file| >= 4 && Contains(file, segments) && NoWrap(segments) && BytesWord(file[..4]) == ELF_MAGIC
    ensures var (s, result) := FromElf(Fresh(), file, sections, segments);
      && result
      && (s.ok <==> AllInRange(AllWrites(file, segments)))
      && (s.ok <==> forall p :: p in segments ==> EndsInMemory(p))
  {
    WindowIsHull(AllWrites(file, segments));
    LoadInRange(file, segments);
  }

  /** One byte right behind the memory is kept, dropped, and not reported. */
  lemma ByteBehindMemory()
    ensures var p := BlockSegment(MEM_SIZE, 1);
      && Kept(p) && Contains(BlockFile([0]), [p])
      && FromElf(Fresh(), BlockFile([0]), [], [p]).1
      && !FromElf(Fresh(), BlockFile([0]), [], [p]).0.ok
  {
    var p := BlockSegment(MEM_SIZE, 1);
    BlockIsElf(MEM_SIZE, [0]);
    LoadedInFullIff(BlockFile([0]), [], [p]);
    assert p in [p] && !EndsInMemory(p);
  }

  // ----- images of whole blocks -----

  /** `count` bytes of zero. */
  function Zeros(count: nat): seq<byte> {
    seq(count, _ => 0)
  }

  lemma BlocksLoad(base: nat, high: nat)
    requires base % BLOCK == 0 && high % BLOCK == 0 && base < high <= MEM_SIZE
    ensures var s := BlockImage(base, Zeros(high - base));
      && Aligned(s) && s.ok && s.base == base && s.high == high
      && s.mem[base..high] == Zeros(high - base)
  {
    var data := Zeros(high - base);
    BlockLoads(base, data);
    RoundUpLastByte(high);
    RoundingIsTight(base);
    SliceSame(Fresh().mem, base, data);
    BlocksArePrintable(BlockImage(base, data));
  }

  /** A loaded image of one block, at such a base, whose text breaks the rule. */
  lemma LoadedImageBreaksRule(base: nat)
    requires base % BLOCK == 0 && base % 4096 != 0 && base + BLOCK <= MEM_SIZE
    ensures var s := BlockImage(base, Zeros(BLOCK));
      && s.ok && Aligned(s)
      && exists line :: line in PrintedLines(s) && !ChecksumHolds(line)
  {
    BlocksLoad(base, base + BLOCK);
    ImageChecksums(BlockImage(base, Zeros(BLOCK)));
  }
}
