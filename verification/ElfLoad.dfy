/** What loading an ELF file means, without the loop: the memory is an overlay
    of the segments, and the window is the hull of the stored addresses. */
module ElfLoad {
  import opened Common
  import opened Arithmetic
  import opened ByteOrder
  import opened ImageState

  // ----- the memory as an overlay -----

  /** Byte n of segment k is the last byte the load puts at address `adr`. */
  ghost predicate LastByteAt(segments: seq<Segment>, k: nat, n: nat, adr: int) {
    && k < |segments| && Kept(segments[k]) && n < segments[k].filesz
    && Target(segments[k], n) == adr
    && (forall m :: n < m < segments[k].filesz ==> Target(segments[k], m) != adr)
    && (forall j :: k < j < |segments| ==> !Covers(segments[j], adr))
  }

  ghost predicate Covers(p: Segment, adr: int) {
    Kept(p) && exists n :: 0 <= n < p.filesz && Target(p, n) == adr
  }

  /** `v` is the byte of the last kept segment that covers the address, or
      `under` when no kept segment does. */
  ghost predicate Overlaid(v: byte, under: byte, file: seq<byte>, segments: seq<Segment>, adr: int)
    requires Contains(file, segments)
  {
    || (v == under && forall j :: 0 <= j < |segments| ==> !Covers(segments[j], adr))
    || exists k: nat, n: nat :: LastByteAt(segments, k, n, adr) && v == file[segments[k].offset + n]
  }

  /** The same for the first n bytes of one segment. */
  ghost predicate SegmentOverlaid(v: byte, under: byte, file: seq<byte>, p: Segment, n: nat, adr: int)
    requires n <= p.filesz && p.offset + p.filesz <= |file|
  {
    || (v == under && forall m :: 0 <= m < n ==> Target(p, m) != adr)
    || exists i: nat :: i < n && Target(p, i) == adr && v == file[p.offset + i]
                        && forall m :: i < m < n ==> Target(p, m) != adr
  }

  lemma SegmentExtends(v: byte, under: byte, file: seq<byte>, p: Segment, n: nat, adr: int)
    requires n < p.filesz && p.offset + p.filesz <= |file|
    requires SegmentOverlaid(v, under, file, p, n, adr)
    ensures Target(p, n) != adr ==> SegmentOverlaid(v, under, file, p, n + 1, adr)
    ensures Target(p, n) == adr ==> SegmentOverlaid(file[p.offset + n], under, file, p, n + 1, adr)
  {
  }

  /** The last of n stores decides the byte at its own address only. */
  lemma LastOfSegment(s: State, file: seq<byte>, p: Segment, n: nat, adr: int)
    requires 0 < n <= p.filesz && p.offset + p.filesz <= |file| && InRange(adr)
    ensures StoreAll(s, SegmentWrites(file, p, n)).mem[adr]
         == if Target(p, n - 1) == adr then file[p.offset + n - 1]
            else StoreAll(s, SegmentWrites(file, p, n - 1)).mem[adr]
  {
    var ws := SegmentWrites(file, p, n);
    assert ws[..n - 1] == SegmentWrites(file, p, n - 1);
    assert ws[n - 1] == (Target(p, n - 1), file[p.offset + n - 1]);
    StoredByte(StoreAll(s, ws[..n - 1]), Target(p, n - 1), file[p.offset + n - 1], adr);
  }

  lemma StoredByte(s: State, to: int, v: byte, adr: int)
    requires InRange(adr)
    ensures ImageState.Store(s, to, v).mem[adr] == if to == adr then v else s.mem[adr]
  {
  }

  lemma {:induction false} SegmentOverlay(s: State, file: seq<byte>, p: Segment, n: nat, adr: int)
    requires n <= p.filesz && p.offset + p.filesz <= |file| && InRange(adr)
    ensures SegmentOverlaid(StoreAll(s, SegmentWrites(file, p, n)).mem[adr], s.mem[adr], file, p, n, adr)
    decreases n
  {
    if n > 0 {
      var before := StoreAll(s, SegmentWrites(file, p, n - 1)).mem[adr];
      SegmentOverlay(s, file, p, n - 1, adr);
      LastOfSegment(s, file, p, n, adr);
      SegmentExtends(before, s.mem[adr], file, p, n - 1, adr);
    }
  }

  lemma SegmentMisses(v: byte, under: byte, file: seq<byte>, init: seq<Segment>, p: Segment, adr: int)
    requires Contains(file, init + [p]) && Contains(file, init) && !Covers(p, adr)
    requires Overlaid(v, under, file, init, adr)
    ensures Overlaid(v, under, file, init + [p], adr)
  {
    var all := init + [p];
    if k: nat, n: nat :| LastByteAt(init, k, n, adr) && v == file[init[k].offset + n] {
      assert all[k] == init[k];
      assert LastByteAt(all, k, n, adr);
    }
  }

  lemma SegmentHits(v: byte, under: byte, file: seq<byte>, init: seq<Segment>, p: Segment, adr: int)
    requires Contains(file, init + [p]) && Kept(p) && p.offset + p.filesz <= |file| && Covers(p, adr)
    requires SegmentOverlaid(v, under, file, p, p.filesz, adr)
    ensures Overlaid(v, under, file, init + [p], adr)
  {
    var i: nat :| i < p.filesz && Target(p, i) == adr && v == file[p.offset + i]
                  && forall m :: i < m < p.filesz ==> Target(p, m) != adr;
    assert LastByteAt(init + [p], |init|, i, adr);
  }

  /** Every memory byte after the load is the byte of the last kept segment that
      covers its address, and the byte it was before when none does. */
  lemma {:induction false} LoadIsOverlay(s: State, file: seq<byte>, segments: seq<Segment>, adr: int)
    requires Contains(file, segments) && InRange(adr)
    ensures Overlaid(StoreAll(s, AllWrites(file, segments)).mem[adr], s.mem[adr], file, segments, adr)
    decreases |segments|
  {
    if segments != [] {
      var p, init := segments[|segments| - 1], segments[..|segments| - 1];
      assert segments == init + [p];
      StoreLastSegment(s, file, init, p);
      LoadIsOverlay(s, file, init, adr);
      var below := StoreAll(s, AllWrites(file, init));
      if Kept(p) {
        SegmentOverlay(below, file, p, p.filesz, adr);
      }
      var v := StoreAll(s, AllWrites(file, segments)).mem[adr];
      if Covers(p, adr) {
        SegmentHits(v, below.mem[adr], file, init, p, adr);
      } else {
        SegmentMisses(v, s.mem[adr], file, init, p, adr);
      }
    }
  }

  /** The bytes of a kept segment that does not wrap around the 64-bit address
      space go exactly where its physical address says. */
  lemma TargetIsExact(p: Segment, n: nat)
    requires Kept(p) && p.paddr + p.filesz < U64 && n < p.filesz
    ensures Target(p, n) == p.paddr + n - FLASH_BASE
  {
  }

  /** The segment holds a byte for this memory address. */
  predicate Spans(p: Segment, adr: int) {
    Kept(p) && p.paddr <= adr + FLASH_BASE < p.paddr + p.filesz
  }

  /** The byte an ELF file defines for an address: that of the last kept segment
      that spans it, or `blank`. */
  function ByteFromFile(file: seq<byte>, segments: seq<Segment>, adr: int, blank: byte): byte
    requires Contains(file, segments)
  {
    if segments == [] then blank
    else
      var p := segments[|segments| - 1];
      assert p in segments;
      if Spans(p, adr) then file[p.offset + (adr + FLASH_BASE - p.paddr)]
      else ByteFromFile(file, segments[..|segments| - 1], adr, blank)
  }

  predicate NoWrap(segments: seq<Segment>) {
    forall p :: p in segments ==> p.paddr + p.filesz < U64
  }

  lemma SpanIsCover(v: byte, under: byte, file: seq<byte>, p: Segment, adr: int)
    requires Kept(p) && p.paddr + p.filesz < U64 && p.offset + p.filesz <= |file| && InRange(adr)
    requires SegmentOverlaid(v, under, file, p, p.filesz, adr)
    ensures v == if Spans(p, adr) then file[p.offset + (adr + FLASH_BASE - p.paddr)] else under
  {
    if Spans(p, adr) {
      TargetIsExact(p, adr + FLASH_BASE - p.paddr);
    }
    forall m: nat | m < p.filesz ensures Target(p, m) == p.paddr + m - FLASH_BASE {
      TargetIsExact(p, m);
    }
  }

  /** For segments that do not wrap around the address space the loaded memory
      is, byte for byte, what the file defines. */
  lemma {:induction false} LoadIsByteExact(s: State, file: seq<byte>, segments: seq<Segment>, adr: int)
    requires Contains(file, segments) && NoWrap(segments) && InRange(adr)
    ensures StoreAll(s, AllWrites(file, segments)).mem[adr] == ByteFromFile(file, segments, adr, s.mem[adr])
    decreases |segments|
  {
    if segments != [] {
      var p, init := segments[|segments| - 1], segments[..|segments| - 1];
      assert segments == init + [p] && p in segments;
      assert forall q :: q in init ==> q in segments;
      StoreLastSegment(s, file, init, p);
      LoadIsByteExact(s, file, init, adr);
      if Kept(p) {
        var below := StoreAll(s, AllWrites(file, init));
        var after := StoreAll(below, SegmentWrites(file, p, p.filesz));
        SegmentOverlay(below, file, p, p.filesz, adr);
        SpanIsCover(after.mem[adr], below.mem[adr], file, p, adr);
      }
    }
  }

  /** fromElf on a fresh image, byte for byte: 0xff wherever no segment reaches. */
  lemma LoadedMemory(file: seq<byte>, sections: seq<Section>, segments: seq<Segment>, adr: int)
    requires |file| >= 4 && Contains(file, segments) && BytesWord(file[..4]) == ELF_MAGIC && InRange(adr)
    ensures var mem := FromElf(Fresh(), file, sections, segments).0.mem;
      && Overlaid(mem[adr], 0xff, file, segments, adr)
      && (NoWrap(segments) ==> mem[adr] == ByteFromFile(file, segments, adr, 0xff))
  {
    LoadIsOverlay(Fresh(), file, segments, adr);
    if NoWrap(segments) {
      LoadIsByteExact(Fresh(), file, segments, adr);
    }
  }

  // ----- the window -----

  /** The in-range addresses of a run of stores. */
  function Hits(ws: seq<write>): set<int> {
    set w | w in ws && InRange(w.0) :: w.0
  }

  ghost predicate IsLeast(x: int, s: set<int>) {
    x in s && forall y :: y in s ==> x <= y
  }

  ghost predicate IsGreatest(x: int, s: set<int>) {
    x in s && forall y :: y in s ==> y <= x
  }

  lemma HitsAfter(before: seq<write>, w: write)
    ensures Hits(before + [w]) == if InRange(w.0) then Hits(before) + {w.0} else Hits(before)
  {
    var all := before + [w];
    forall a ensures a in Hits(all) <==> a in Hits(before) || (InRange(w.0) && a == w.0) {
      if a in Hits(all) {
        var u :| u in all && InRange(u.0) && u.0 == a;
        assert u == w || u in before;
      }
      if a in Hits(before) {
        var u :| u in before && InRange(u.0) && u.0 == a;
        assert u in all;
      }
      assert w in all;
    }
  }

  /** `s` has the window a run of stores from a fresh image must give. */
  ghost predicate HasHull(s: State, ws: seq<write>) {
    && (Hits(ws) == {} ==> s.low == Fresh().low && s.high == 0)
    && (Hits(ws) != {} ==> IsLeast(s.low, Hits(ws)) && IsGreatest(s.high, Hits(ws)))
  }

  lemma HullGrows(s: State, before: seq<write>, w: write)
    requires HasHull(s, before)
    ensures HasHull(ImageState.Store(s, w.0, w.1), before + [w])
  {
    HitsAfter(before, w);
    if InRange(w.0) && Hits(before) == {} {
      assert Hits(before + [w]) == {w.0};
    }
  }

  /** After any run of stores from a fresh image the window is the exact hull of
      the in-range addresses, and ok says whether every store was in range. */
  lemma {:induction false} WindowIsHull(ws: seq<write>)
    ensures HasHull(StoreAll(Fresh(), ws), ws)
    ensures StoreAll(Fresh(), ws).ok <==> forall w :: w in ws ==> InRange(w.0)
    decreases |ws|
  {
    if ws != [] {
      var w, before := ws[|ws| - 1], ws[..|ws| - 1];
      WindowIsHull(before);
      assert ws == before + [w];
      HullGrows(StoreAll(Fresh(), before), before, w);
    }
  }

  /** `base` and `high` are the tightest block boundaries around the stored
      addresses; high itself is stored, and so falls outside the image proper,
      exactly when the greatest stored address is a multiple of the block size. */
  ghost predicate IsWindowOf(base: int, high: int, hits: set<int>) {
    && base % BLOCK == 0 && high % BLOCK == 0 && 0 <= base <= high <= MEM_SIZE
    && (forall a :: a in hits ==> base <= a <= high)
    && (exists a :: a in hits && a < base + BLOCK)
    && (exists a :: a in hits && high - BLOCK < a)
    && (forall a :: a in hits ==> (a == high <==> IsGreatest(a, hits) && a % BLOCK == 0))
  }

  lemma HullRounds(low: int, high: int, hits: set<int>)
    requires IsLeast(low, hits) && IsGreatest(high, hits)
    requires forall a :: a in hits ==> InRange(a)
    ensures IsWindowOf(RoundDown(low), RoundUp(high), hits)
  {
    RoundingIsTight(low);
    RoundingIsTight(high);
  }

  /** The window of a loaded image. */
  lemma LoadedWindow(file: seq<byte>, sections: seq<Section>, segments: seq<Segment>)
    requires |file| >= 4 && Contains(file, segments) && BytesWord(file[..4]) == ELF_MAGIC
    requires Hits(AllWrites(file, segments)) != {}
    ensures var s := FromElf(Fresh(), file, sections, segments).0;
      && IsWindowOf(s.base, s.high, Hits(AllWrites(file, segments)))
      && (s.ok <==> forall w :: w in AllWrites(file, segments) ==> InRange(w.0))
  {
    var ws := AllWrites(file, segments);
    var loaded := StoreAll(Fresh(), ws);
    WindowIsHull(ws);
    HullRounds(loaded.low, loaded.high, Hits(ws));
  }

  /** Without any in-range store the image is empty and its window inverted. */
  lemma NothingLoaded(file: seq<byte>, sections: seq<Section>, segments: seq<Segment>)
    requires |file| >= 4 && Contains(file, segments) && BytesWord(file[..4]) == ELF_MAGIC
    requires Hits(AllWrites(file, segments)) == {}
    ensures var s := FromElf(Fresh(), file, sections, segments).0;
      s.mem == Fresh().mem && s.base == MEM_SIZE && s.high == 0
  {
    WindowIsHull(AllWrites(file, segments));
    UntouchedMemory(Fresh(), AllWrites(file, segments));
  }

  lemma {:induction false} UntouchedMemory(s: State, ws: seq<write>)
    requires Hits(ws) == {}
    ensures StoreAll(s, ws).mem == s.mem
    decreases |ws|
  {
    if ws != [] {
      var w, init := ws[|ws| - 1], ws[..|ws| - 1];
      assert ws == init + [w];
      assert InRange(w.0) ==> w.0 in Hits(ws);
      forall a ensures a !in Hits(init) {
        assert a in Hits(init) ==> a in Hits(ws);
      }
      UntouchedMemory(s, init);
    }
  }

  // ----- the segment bounds main puts into the header -----

  /** ro_max_ is the greatest end of a kept segment, or its starting value. */
  lemma {:induction false} RoMaxIsGreatest(segments: seq<Segment>, start: int)
    ensures var m := RoMax(segments, start);
      && start <= m
      && (forall p :: p in segments && Kept(p) ==> End(p.paddr, p.filesz) <= m)
      && (m == start || exists p :: p in segments && Kept(p) && End(p.paddr, p.filesz) == m)
    decreases |segments|
  {
    if segments != [] {
      var p, init := segments[|segments| - 1], segments[..|segments| - 1];
      assert segments == init + [p];
      RoMaxIsGreatest(init, start);
    }
  }

  lemma {:induction false} RxMaxIsGreatest(sections: seq<Section>, start: int)
    ensures var m := RxMax(sections, start);
      && start <= m
      && (forall c :: c in sections && Tracked(c) ==> End(c.addr, c.size) <= m)
      && (m == start || exists c :: c in sections && Tracked(c) && End(c.addr, c.size) == m)
    decreases |sections|
  {
    if sections != [] {
      var c, init := sections[|sections| - 1], sections[..|sections| - 1];
      assert sections == init + [c];
      RxMaxIsGreatest(init, start);
    }
  }

  // ----- what fromElf leaves in the bounds, guards written out -----

  /** Loaded: it has an offset in the file, starts in flash and ends below the end
      of the flash range, in 64-bit arithmetic. */
  predicate Loadable(p: Segment) {
    p.offset != 0 && p.paddr >= 0x4_0000 && (p.paddr + p.filesz) % 0x1_0000_0000_0000_0000 < 0x84_0000
  }

  /** Code: allocated, executable, and in the same range. */
  predicate IsCode(c: Section) {
    && c.alloc && c.exec
    && c.addr >= 0x4_0000 && (c.addr + c.size) % 0x1_0000_0000_0000_0000 < 0x84_0000
  }

  /** `bound` is the greatest end of the loadable segments, 0 without any. */
  ghost predicate IsSegmentBound(bound: int, segments: seq<Segment>) {
    && (forall p :: p in segments && Loadable(p) ==> (p.paddr + p.filesz) % 0x1_0000_0000_0000_0000 <= bound)
    && (bound == 0
        || exists p :: p in segments && Loadable(p) && (p.paddr + p.filesz) % 0x1_0000_0000_0000_0000 == bound)
    && 0 <= bound
  }

  ghost predicate IsSectionBound(bound: int, sections: seq<Section>) {
    && (forall c :: c in sections && IsCode(c) ==> (c.addr + c.size) % 0x1_0000_0000_0000_0000 <= bound)
    && (bound == 0
        || exists c :: c in sections && IsCode(c) && (c.addr + c.size) % 0x1_0000_0000_0000_0000 == bound)
    && 0 <= bound
  }

  lemma GuardsWrittenOut(p: Segment, c: Section)
    ensures Kept(p) <==> Loadable(p)
    ensures Tracked(c) <==> IsCode(c)
  {
  }

  /** fromElf takes a file exactly when it starts with 0x7f "ELF" and leaves the
      image alone otherwise. A new image then has the ends of data and code as
      upper bounds, and lower bounds and window that start at the same block. */
  lemma LoadedBounds(file: seq<byte>, sections: seq<Section>, segments: seq<Segment>)
    requires |file| >= 4 && Contains(file, segments)
    ensures var (s, result) := FromElf(Fresh(), file, sections, segments);
      && (result <==> file[..4] == [0x7f, 0x45, 0x4c, 0x46])
      && (!result ==> s == Fresh())
      && (result ==>
            && IsSegmentBound(s.roMax, segments) && IsSectionBound(s.rxMax, sections)
            && s.low == s.base && s.roBase == 0x4_0000 + s.base && s.rxBase == s.roBase + 1024)
  {
    MagicIsElf(file[..4]);
    RoMaxIsGreatest(segments, 0);
    RxMaxIsGreatest(sections, 0);
    forall p: Segment, c: Section ensures (Kept(p) <==> Loadable(p)) && (Tracked(c) <==> IsCode(c)) {
      GuardsWrittenOut(p, c);
    }
  }

  lemma MagicIsElf(b: seq<byte>)
    requires |b| == 4
    ensures BytesWord(b) == ELF_MAGIC <==> b == [0x7f, 0x45, 0x4c, 0x46]
  {
    if BytesWord(b) == ELF_MAGIC {
      BytesRoundTrip(b);
      assert WordBytes(ELF_MAGIC) == [0x7f, 0x45, 0x4c, 0x46];
    }
  }

  /** Addresses are cut to 32 bits as a conversion to int does. */
  lemma TargetIsInt(p: Segment, n: nat)
    ensures -0x8000_0000 <= Target(p, n) < 0x8000_0000
    ensures (p.paddr + n - FLASH_BASE - Target(p, n)) % WORD == 0
  {
    var x := p.paddr + n - FLASH_BASE;
    var y := x % U64;
    DivModIdentity(x, U64);
    DivModIdentity(y, WORD);
    var k := WORD * (x / U64) + y / WORD;
    if y % WORD < 0x8000_0000 {
      MultipleMod(WORD, k);
    } else {
      MultipleMod(WORD, k + 1);
    }
  }
}
