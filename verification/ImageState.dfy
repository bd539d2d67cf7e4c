/** The value of an Image object and what its loading and padding operations
    compute on that value. The class in Image.dfy is proved against these. */
module ImageState {
  import opened Common
  import opened Arithmetic

  const FLASH_START: int := 0x4000
  /** The dauntless flag is still false when this constant is initialised. */
  const FLASH_END: int := FLASH_START + 512 * 1024
  const FLASH_BASE: int := FLASH_START * 16
  const FLASH_TOP: int := FLASH_END * 16
  const MEM_SIZE: int := 8 * 64 * 1024
  const PAD_END: int := 512 * 1024 - 2048
  const HEADER_SIZE: int := 1024
  const BLOCK: int := 2048
  const ELF_MAGIC: int := 0x464c457f

  type memory = m: seq<byte> | |m| == MEM_SIZE witness seq(MEM_SIZE, _ => 0)

  type u64 = x: int | 0 <= x < 0x1_0000_0000_0000_0000

  const U64: int := 0x1_0000_0000_0000_0000

  datatype State = State(
    mem: memory, ok: bool, low: int, high: int, base: int,
    roBase: int, rxBase: int, roMax: int, rxMax: int)
  {
    function Size(): int {
      high - base
    }
  }

  function Fresh(): State {
    State(seq(MEM_SIZE, _ => 0xff), true, FLASH_END - FLASH_START, 0, 0, FLASH_TOP, FLASH_TOP, 0, 0)
  }

  // ----- stores -----

  predicate InRange(adr: int) {
    0 <= adr < MEM_SIZE
  }

  function Store(s: State, adr: int, v: byte): State {
    if !InRange(adr) then s.(ok := false)
    else s.(mem := s.mem[adr := v],
            high := if adr > s.high then adr else s.high,
            low := if adr < s.low then adr else s.low)
  }

  type write = (int, byte)

  /** A run of stores, in order. */
  function StoreAll(s: State, ws: seq<write>): State {
    if ws == [] then s
    else var (adr, v) := ws[|ws| - 1]; Store(StoreAll(s, ws[..|ws| - 1]), adr, v)
  }

  lemma {:induction false} StoreAllConcat(s: State, a: seq<write>, b: seq<write>)
    ensures StoreAll(s, a + b) == StoreAll(StoreAll(s, a), b)
    decreases |b|
  {
    if b == [] {
      assert a + b == a;
    } else {
      assert (a + b)[..|a + b| - 1] == a + b[..|b| - 1];
      StoreAllConcat(s, a, b[..|b| - 1]);
    }
  }

  /** Stores do not look at the read-only and executable bounds. */
  lemma {:induction false} StoreAllBounds(s: State, ws: seq<write>, a: int, b: int, c: int, d: int)
    ensures StoreAll(s.(roBase := a, rxBase := b, roMax := c, rxMax := d), ws)
         == StoreAll(s, ws).(roBase := a, rxBase := b, roMax := c, rxMax := d)
    decreases |ws|
  {
    if ws != [] {
      StoreAllBounds(s, ws[..|ws| - 1], a, b, c, d);
    }
  }

  /** Consecutive stores of `bytes` from address `adr` on. */
  function Run(adr: int, bytes: seq<byte>): seq<write> {
    seq(|bytes|, i requires 0 <= i < |bytes| => (adr + i, bytes[i]))
  }

  /** A run splits anywhere ... */
  lemma RunConcat(s: State, adr: int, a: seq<byte>, b: seq<byte>)
    ensures StoreAll(s, Run(adr, a + b)) == StoreAll(StoreAll(s, Run(adr, a)), Run(adr + |a|, b))
  {
    assert Run(adr, a + b) == Run(adr, a) + Run(adr + |a|, b);
    StoreAllConcat(s, Run(adr, a), Run(adr + |a|, b));
  }

  /** ... in particular after its first byte. */
  lemma RunFirst(s: State, adr: int, bytes: seq<byte>)
    requires bytes != []
    ensures StoreAll(s, Run(adr, bytes)) == StoreAll(Store(s, adr, bytes[0]), Run(adr + 1, bytes[1..]))
  {
    assert bytes == [bytes[0]] + bytes[1..];
    RunConcat(s, adr, [bytes[0]], bytes[1..]);
    var one := Run(adr, [bytes[0]]);
    assert one[..0] == [] && one[0] == (adr, bytes[0]);
  }

  /** An in-range run is one block copy, and the window grows to include it. */
  lemma {:induction false} RunEffect(s: State, adr: nat, bytes: seq<byte>)
    requires bytes != [] && adr + |bytes| <= MEM_SIZE
    ensures var last := adr + |bytes| - 1;
      StoreAll(s, Run(adr, bytes)) ==
      s.(mem := WriteAt(s.mem, adr, bytes),
         high := if last > s.high then last else s.high,
         low := if adr < s.low then adr else s.low)
    decreases |bytes|
  {
    var n := |bytes| - 1;
    assert Run(adr, bytes)[..n] == Run(adr, bytes[..n]);
    if n == 0 {
      assert StoreAll(s, Run(adr, bytes[..n])) == s;
      assert s.mem[adr := bytes[0]] == WriteAt(s.mem, adr, bytes);
    } else {
      RunEffect(s, adr, bytes[..n]);
      assert WriteAt(s.mem, adr, bytes[..n])[adr + n := bytes[n]] == WriteAt(s.mem, adr, bytes);
    }
  }

  // ----- rounding to 2K blocks -----

  function RoundDown(x: int): int {
    x - x % BLOCK
  }

  function RoundUp(x: int): int {
    (x + (BLOCK - 1)) / BLOCK * BLOCK
  }

  lemma RoundingIsTight(x: nat)
    ensures RoundDown(x) % BLOCK == 0 && RoundDown(x) <= x < RoundDown(x) + BLOCK
    ensures RoundUp(x) % BLOCK == 0 && RoundUp(x) - BLOCK < x <= RoundUp(x)
    ensures x == RoundUp(x) <==> x % BLOCK == 0
    ensures x < MEM_SIZE ==> RoundUp(x) <= MEM_SIZE
  {
  }

  lemma RoundUpLastByte(top: int)
    requires top % BLOCK == 0
    ensures RoundUp(top - 1) == top
  {
    DivModUnique(top - 1 + (BLOCK - 1), BLOCK, top / BLOCK, BLOCK - 2);
  }

  // ----- loading an ELF file -----

  datatype Section = Section(alloc: bool, exec: bool, addr: u64, size: u64)

  datatype Segment = Segment(paddr: u64, offset: u64, filesz: u64)

  /** addr .. addr + size lies inside the flash range, in 64-bit arithmetic. */
  predicate InFlash(addr: u64, size: u64) {
    addr >= FLASH_BASE && (addr + size) % U64 < FLASH_TOP
  }

  predicate Tracked(c: Section) {
    c.alloc && c.exec && InFlash(c.addr, c.size)
  }

  predicate Kept(p: Segment) {
    InFlash(p.paddr, p.filesz) && p.offset != 0
  }

  /** The conversion of a 64-bit value to int. */
  function ToInt32(x: int): int {
    var y := x % WORD; if y < 0x8000_0000 then y else y - WORD
  }

  /** Where byte n of a segment goes in the image memory. */
  function Target(p: Segment, n: nat): int {
    ToInt32((p.paddr + n - FLASH_BASE) % U64)
  }

  function Max(a: int, b: int): int {
    if a > b then a else b
  }

  function End(addr: u64, size: u64): int {
    (addr + size) % U64
  }

  /** The end of the last tracked section seen, or the starting value. */
  function RxMax(sections: seq<Section>, start: int): int {
    if sections == [] then start
    else
      var c, before := sections[|sections| - 1], RxMax(sections[..|sections| - 1], start);
      if Tracked(c) then Max(before, End(c.addr, c.size)) else before
  }

  function RoMax(segments: seq<Segment>, start: int): int {
    if segments == [] then start
    else
      var p, before := segments[|segments| - 1], RoMax(segments[..|segments| - 1], start);
      if Kept(p) then Max(before, End(p.paddr, p.filesz)) else before
  }

  /** The file holds every byte of every segment that is loaded. */
  predicate Contains(file: seq<byte>, segments: seq<Segment>) {
    forall p :: p in segments && Kept(p) ==> p.offset + p.filesz <= |file|
  }

  /** The first n stores of a segment. */
  function SegmentWrites(file: seq<byte>, p: Segment, n: nat): seq<write>
    requires n <= p.filesz && p.offset + p.filesz <= |file|
  {
    seq(n, i requires 0 <= i < n => (Target(p, i), file[p.offset + i]))
  }

  function AllWrites(file: seq<byte>, segments: seq<Segment>): seq<write>
    requires Contains(file, segments)
  {
    if segments == [] then []
    else
      var p, init := segments[|segments| - 1], segments[..|segments| - 1];
      AllWrites(file, init) + if Kept(p) then SegmentWrites(file, p, p.filesz) else []
  }

  /** The last segment is stored over what the others left. */
  lemma StoreLastSegment(s: State, file: seq<byte>, init: seq<Segment>, p: Segment)
    requires Contains(file, init + [p])
    ensures Contains(file, init) && (Kept(p) ==> p.offset + p.filesz <= |file|)
    ensures var before := StoreAll(s, AllWrites(file, init));
      StoreAll(s, AllWrites(file, init + [p]))
      == if Kept(p) then StoreAll(before, SegmentWrites(file, p, p.filesz)) else before
  {
    var all := init + [p];
    assert p in all && forall q :: q in init ==> q in all;
    assert all[..|all| - 1] == init && all[|all| - 1] == p;
    if Kept(p) {
      StoreAllConcat(s, AllWrites(file, init), SegmentWrites(file, p, p.filesz));
    } else {
      assert AllWrites(file, all) == AllWrites(file, init);
    }
  }

  /** fromElf after the file has been opened and read. */
  function FromElf(s: State, file: seq<byte>, sections: seq<Section>, segments: seq<Segment>): (State, bool)
    requires |file| >= 4 && Contains(file, segments)
  {
    if BytesWord(file[..4]) != ELF_MAGIC then (s, false)
    else
      var loaded := StoreAll(s, AllWrites(file, segments));
      var base := RoundDown(loaded.low);
      (loaded.(low := base, base := base, high := RoundUp(loaded.high),
               roBase := base + FLASH_BASE, rxBase := base + FLASH_BASE + HEADER_SIZE,
               roMax := RoMax(segments, s.roMax), rxMax := RxMax(sections, s.rxMax)),
       true)
  }

  // ----- padding -----

  /** Words f(i), f(i + 4), ... stored from offset i up to the padding limit. */
  function Fill(mem: memory, i: nat, f: nat -> word): memory
    decreases PAD_END - i
  {
    if i >= PAD_END then mem else Fill(WriteAt(mem, i, WordBytes(f(i))), i + 4, f)
  }

  /** fillPattern and fillRandom: filling starts at high_ - base_. */
  function Pad(s: State, f: nat -> word): State
    requires s.base <= s.high
  {
    s.(mem := Fill(s.mem, s.Size(), f), high := PAD_END)
  }
}
