/** The image builder: a byte memory with a tracked window that is loaded,
    padded, signed in place and printed. Every method is proved to take the
    object from one value to the next as the functions on values say. */
module Image {
  import opened Common
  import opened Arithmetic
  import opened Limbs
  import opened PublicKey
  import opened ImageState
  import IntelHex
  import Signing

  class Image {
    var success: bool
    const mem: array<byte>
    var low: int
    var high: int
    var base: int
    var roBase: int
    var rxBase: int
    var roMax: int
    var rxMax: int

    ghost predicate Valid() {
      mem.Length == MEM_SIZE
    }

    /** The object as a value. */
    ghost function Value(): State
      requires Valid()
      reads this, mem
    {
      State(mem[..], success, low, high, base, roBase, rxBase, roMax, rxMax)
    }

    constructor ()
      ensures Valid() && fresh(mem)
      ensures Value() == Fresh()
    {
      mem := new byte[MEM_SIZE](_ => 0xff);
      success := true;
      low, high, base := FLASH_END - FLASH_START, 0, 0;
      roBase, rxBase, roMax, rxMax := FLASH_TOP, FLASH_TOP, 0, 0;
      new;
      assert mem[..] == Fresh().mem;
    }

    method Store(adr: int, v: byte)
      requires Valid()
      modifies this, mem
      ensures Value() == ImageState.Store(old(Value()), adr, v)
    {
      if adr < 0 || adr >= mem.Length {
        success := false;
        return;
      }
      mem[adr] := v;
      if adr > high {
        high := adr;
      }
      if adr < low {
        low := adr;
      }
    }

    // ----- Intel HEX -----

    method Nibble(n: char) returns (d: int)
      modifies this`success
      ensures d == IntelHex.Nibble(n)
      ensures success == (old(success) && IntelHex.IsNibble(n))
    {
      match n {
        case '0' => d := 0;
        case '1' => d := 1;
        case '2' => d := 2;
        case '3' => d := 3;
        case '4' => d := 4;
        case '5' => d := 5;
        case '6' => d := 6;
        case '7' => d := 7;
        case '8' => d := 8;
        case '9' => d := 9;
        case 'a' => d := 10;
        case 'A' => d := 10;
        case 'b' => d := 11;
        case 'B' => d := 11;
        case 'c' => d := 12;
        case 'C' => d := 12;
        case 'd' => d := 13;
        case 'D' => d := 13;
        case 'e' => d := 14;
        case 'E' => d := 14;
        case 'f' => d := 15;
        case 'F' => d := 15;
        case _ => success, d := false, 0;
      }
    }

    /** Parses two digits at p and returns the position behind them. */
    method ParseByte(line: array<char>, p: nat) returns (b: byte, next: nat)
      requires p + 2 <= line.Length
      modifies this`success
      ensures b == IntelHex.ByteAt(line[..], p) && next == p + 2
      ensures success == (old(success) && IntelHex.IsByteAt(line[..], p))
    {
      var hi := Nibble(line[p]);
      var lo := Nibble(line[p + 1]);
      b, next := hi * 16 + lo, p + 2;
    }

    method ParseWord(line: array<char>, p: nat) returns (w: int, next: nat)
      requires p + 4 <= line.Length
      modifies this`success
      ensures w == IntelHex.WordAt(line[..], p) && next == p + 4
      ensures success == (old(success) && IntelHex.IsWordAt(line[..], p))
    {
      var hi, p1 := ParseByte(line, p);
      var lo, p2 := ParseByte(line, p1);
      w, next := (hi as int) * 256 + lo as int, p2;
    }

    /** The state of the read loop of fromIntelHex as a value. */
    ghost function Reading(seg: int, isRam: bool): IntelHex.Reader
      requires Valid()
      reads this, mem
    {
      IntelHex.Reader(Value(), seg, isRam)
    }

    method ReadSegmentRecord(line: array<char>, seg: int, isRam: bool) returns (seg': int, isRam': bool)
      requires Valid() && line.Length == IntelHex.BUFSIZ
      modifies this`success
      ensures Reading(seg', isRam') == IntelHex.ReadSegment(old(Reading(seg, isRam)), line[..])
    {
      seg' := seg;
      if line[..9] == IntelHex.SEGMENT_PREFIX {
        assert line[..][..9] == line[..9];
        var s, _ := ParseWord(line, 9);
        if s != 0x1000 {
          if s >= FLASH_START && s <= FLASH_END {
            seg' := s - FLASH_START;
          } else {
            success := false;
          }
        }
      } else {
        assert line[..][..9] == line[..9];
      }
      isRam' := IntelHex.CString(line[..]) == IntelHex.RAM_RECORD;
    }

    method ReadDataRecord(line: array<char>, seg: int, isRam: bool)
      requires Valid() && line.Length == IntelHex.BUFSIZ
      modifies this, mem
      ensures line[..] == old(line[..])
      ensures Reading(seg, isRam) == IntelHex.ReadData(old(Reading(seg, isRam)), line[..])
    {
      var len, p1 := ParseByte(line, 1);
      var adr, p2 := ParseWord(line, p1);
      var _, p3 := ParseByte(line, p2);
      assert Reading(seg, isRam) == old(Reading(seg, isRam)).Check(
        IntelHex.IsByteAt(line[..], 1) && IntelHex.IsWordAt(line[..], 3) && IntelHex.IsByteAt(line[..], 7));
      ReadDataBytes(line, p3, adr, len, seg, isRam);
    }

    /** Even the longest record stays inside the line buffer. */
    method ReadDataBytes(line: array<char>, p0: nat, adr0: int, len0: nat, seg: int, isRam: bool)
      requires Valid() && p0 + 2 * len0 <= line.Length
      modifies this, mem
      ensures line[..] == old(line[..])
      ensures Reading(seg, isRam) == IntelHex.ReadBytes(old(Reading(seg, isRam)), line[..], p0, adr0, len0)
    {
      var len: int, adr: int, p: nat := len0, adr0, p0;
      ghost var text := line[..];
      ghost var total := IntelHex.ReadBytes(Reading(seg, isRam), text, p0, adr0, len0);
      while len > 0
        invariant 0 <= len && p + 2 * len <= line.Length && line[..] == text
        invariant IntelHex.ReadBytes(Reading(seg, isRam), text, p, adr, len) == total
      {
        ReadOneByte(line, p, adr, seg, isRam);
        p := p + 2;
        adr := adr + 1;
        len := len - 1;
      }
    }

    method ReadOneByte(line: array<char>, p: nat, adr: int, seg: int, isRam: bool)
      requires Valid() && p + 2 <= line.Length
      modifies this, mem
      ensures line[..] == old(line[..])
      ensures Reading(seg, isRam) == IntelHex.ReadByte(old(Reading(seg, isRam)), line[..], p, adr)
    {
      var v, _ := ParseByte(line, p);
      if !isRam {
        Store(seg * 16 + adr, v);
      }
    }

    /** Reads a chunk of the file into the line buffer and cuts its line ending. */
    method NextLine(line: array<char>, chunk: string)
      requires line.Length == IntelHex.BUFSIZ && |chunk| < IntelHex.BUFSIZ
      modifies line
      ensures line[..] == IntelHex.LoadLine(old(line[..]), chunk)
    {
      Gets(line, chunk);
      CutAt(line, '\r');
      CutAt(line, '\n');
    }

    /** fgets for a chunk of the file. */
    method Gets(line: array<char>, chunk: string)
      requires line.Length == IntelHex.BUFSIZ && |chunk| < IntelHex.BUFSIZ
      modifies line
      ensures line[..] == IntelHex.Receive(old(line[..]), chunk)
    {
      for i := 0 to |chunk|
        invariant forall j :: 0 <= j < i ==> line[j] == chunk[j]
        invariant forall j :: i <= j < line.Length ==> line[j] == old(line[j])
      {
        line[i] := chunk[i];
      }
      line[|chunk|] := '\0';
    }

    method CutAt(line: array<char>, c: char)
      requires line.Length == IntelHex.BUFSIZ
      modifies line
      ensures line[..] == IntelHex.Cut(old(line[..]), c)
    {
      var text := IntelHex.CString(line[..]);
      var k := |IntelHex.Chop(text, c)|;
      if c in text && k < line.Length {
        line[k] := '\0';
      }
    }

    /** One round of the read loop. */
    method ReadLine(line: array<char>, seg: int, isRam: bool) returns (seg': int, isRam': bool)
      requires Valid() && line.Length == IntelHex.BUFSIZ
      modifies this, mem
      ensures line[..] == old(line[..])
      ensures Reading(seg', isRam') == IntelHex.ReadLine(old(Reading(seg, isRam)), line[..])
    {
      seg', isRam' := seg, isRam;
      if line[0] != ':' {
        return;
      }
      if |IntelHex.CString(line[..])| < 9 {
        success := false;
        return;
      }
      if line[7] != '0' {
        success := false;
      } else {
        match line[8] {
          case '1' =>
          case '2' => seg', isRam' := ReadSegmentRecord(line, seg, isRam);
          case '0' => ReadDataRecord(line, seg, isRam);
          case '3' =>
          case _ => success := false;
        }
      }
    }

    method ReadText(text: string, line: array<char>)
      requires Valid() && line.Length == IntelHex.BUFSIZ
      modifies this, mem, line
      ensures Value() == IntelHex.ReadLines(IntelHex.Reader(old(Value()), 0, false),
                                            IntelHex.BuffersOf(old(line[..]), text)).img
    {
      var seg, isRam, rest := 0, false, text;
      ghost var total := IntelHex.ReadLines(Reading(seg, isRam), IntelHex.BuffersOf(line[..], text));
      while rest != []
        invariant IntelHex.ReadLines(Reading(seg, isRam), IntelHex.BuffersOf(line[..], rest)) == total
        decreases |rest|
      {
        IntelHex.BuffersStep(line[..], rest);
        var n := IntelHex.ChunkLength(rest, IntelHex.BUFSIZ - 1);
        ghost var lines := IntelHex.BuffersOf(line[..], rest);
        NextLine(line, rest[..n]);
        rest := rest[n..];
        seg, isRam := ReadLine(line, seg, isRam);
        assert lines[1..] == IntelHex.BuffersOf(line[..], rest);
      }
    }

    /** `line` is the line buffer on the stack, with whatever it held before. */
    method FromIntelHex(file: Option<string>, withSignature: bool, line: array<char>) returns (ok: bool)
      requires Valid() && line.Length == IntelHex.BUFSIZ
      modifies this, mem, line
      ensures Value() == IntelHex.FromIntelHex(old(Value()), file, withSignature, old(line[..]))
      ensures ok == success
    {
      match file {
        case None => success := false;
        case Some(text) => ReadText(text, line);
      }
      if success {
        if withSignature {
          base := low;
        } else {
          base := low - HEADER_SIZE;
        }
      }
      if success {
        high := (high + 2047) / 2048 * 2048;
        roBase := FLASH_START * 16 + base;
        rxBase := FLASH_START * 16 + base;
        roMax := FLASH_START * 16 + base + (high - base);
        rxMax := FLASH_START * 16 + base + (high - base);
      }
      ok := success;
    }

    method ToIntelHex() returns (out: string)
      requires Valid() && IntelHex.Printable(Value())
      ensures out == IntelHex.Print(Value())
    {
      out := "";
      var i: nat := base;
      PrintBegins(Value());
      while i < high
        invariant Printing(mem[..], base, high, i, out)
      {
        var text := PrintChunk(i);
        PrintStep(mem[..], base, high, i, out, text);
        out := out + text;
        i := i + 16;
      }
      PrintEnds(Value(), i, out);
    }

    /** A whole number of lines is left at offset i. */
    ghost predicate OnLine(start: nat, end: int, i: int) {
      start <= i && (end - i) % 16 == 0 && (i < end ==> i + 16 <= end)
    }

    /** The text still to be printed at offset i. */
    ghost function PrintFrom(m: memory, start: nat, end: int, i: nat): string {
      if OnLine(start, end, i) && end <= MEM_SIZE then IntelHex.Flatten(IntelHex.Lines(m, start, end, i))
      else ""
    }

    /** `out` is what is printed before offset i. */
    ghost predicate Printing(m: memory, start: nat, end: int, i: int, out: string) {
      && OnLine(start, end, i)
      && out + PrintFrom(m, start, end, i) == PrintFrom(m, start, end, start)
    }

    lemma PrintBegins(s: State)
      requires IntelHex.Printable(s)
      ensures Printing(s.mem, s.base, s.high, s.base, "")
    {
      if s.base < s.high {
        StepDown(s.high - s.base);
      }
      assert "" + PrintFrom(s.mem, s.base, s.high, s.base) == PrintFrom(s.mem, s.base, s.high, s.base);
    }

    lemma PrintEnds(s: State, i: nat, out: string)
      requires IntelHex.Printable(s) && Printing(s.mem, s.base, s.high, i, out) && i >= s.high
      ensures out == IntelHex.Print(s)
    {
      PrintBegins(s);
      assert PrintFrom(s.mem, s.base, s.high, i) == "";
      assert out + "" == out;
    }

    lemma NextLineFollows(start: nat, end: int, i: nat)
      requires OnLine(start, end, i) && i < end
      ensures OnLine(start, end, i + 16)
    {
      StepDown(end - i);
    }

    lemma PrintsNext(m: memory, start: nat, end: int, i: nat)
      requires OnLine(start, end, i) && i < end <= MEM_SIZE && OnLine(start, end, i + 16)
      ensures PrintFrom(m, start, end, i)
           == IntelHex.Flatten(PrintedAt(m, start, end, i)) + PrintFrom(m, start, end, i + 16)
    {
      IntelHex.FlattenConcat(PrintedAt(m, start, end, i), IntelHex.Lines(m, start, end, i + 16));
    }

    /** One round of the loop: what is printed moves from the rest to the text. */
    lemma PrintStep(m: memory, start: nat, end: int, i: nat, out: string, text: string)
      requires Printing(m, start, end, i, out) && i < end <= MEM_SIZE
      requires text == IntelHex.Flatten(PrintedAt(m, start, end, i))
      ensures Printing(m, start, end, i + 16, out + text)
    {
      NextLineFollows(start, end, i);
      PrintsNext(m, start, end, i);
      AppendText(out, text, PrintFrom(m, start, end, i + 16));
    }

    ghost function PrintedAt(m: memory, start: nat, end: int, i: nat): seq<string>
      requires OnLine(start, end, i) && i < end <= MEM_SIZE
    {
      IntelHex.Chunk(m, start, i)
    }

    lemma AppendText(a: string, b: string, c: string)
      ensures (a + b) + c == a + (b + c)
    {
    }

    lemma StepDown(rest: int)
      requires rest > 0 && rest % 16 == 0
      ensures rest >= 16 && (rest - 16) % 16 == 0
    {
    }

    method PrintChunk(i: nat) returns (text: string)
      requires Valid() && 0 <= base <= i && i + 16 <= MEM_SIZE
      ensures text == IntelHex.Flatten(IntelHex.Chunk(mem[..], base, i))
    {
      text := "";
      if (i - base) % 0x1_0000 == 0 {
        text := PrintSegment(FLASH_START + base / 16 + (i - base) / 16);
        assert text == IntelHex.Record(IntelHex.SegmentFields(IntelHex.SegmentAt(base, i)));
      }
      var line := PrintData(i, (i - base) % 0x1_0000);
      assert line == IntelHex.DataRecord(mem[..], base, i);
      IntelHex.ChunkText(mem[..], base, i);
      text := text + line;
    }

    method PrintSegment(s: nat) returns (text: string)
      requires s < 0x1_0000
      ensures text == IntelHex.Record(IntelHex.SegmentFields(s))
    {
      var check := IntelHex.Negate8(2 + 2 + s / 256);
      text := ":02000002" + IntelHex.HexText([s / 256, s % 256]) + IntelHex.HexText([check]) + "\n";
      IntelHex.SegmentText(s);
    }

    method PrintData(i: nat, adr: nat) returns (line: string)
      requires Valid() && i + 16 <= MEM_SIZE && adr < 0x1_0000
      ensures line == IntelHex.Record(IntelHex.DataFields(adr, mem[..][i..i + 16]))
    {
      line := ":10" + IntelHex.HexText([adr / 256, adr % 256]) + "00";
      var crc: int := 16 + adr / 256 + adr % 256;
      line, crc := PrintBytes(i, line, crc);
      line := line + IntelHex.HexText([IntelHex.Negate8(crc)]);
      line := line + "\n";
      IntelHex.DataFieldsText(adr, mem[..][i..i + 16]);
    }

    method PrintBytes(i: nat, start: string, crc0: int) returns (line: string, crc: int)
      requires Valid() && i + 16 <= MEM_SIZE
      ensures line == start + IntelHex.HexText(mem[..][i..i + 16])
      ensures crc == crc0 + IntelHex.Sum(mem[..][i..i + 16])
    {
      ghost var m := mem[..];
      line, crc := start, crc0;
      for n := 0 to 16
        invariant line == start + IntelHex.HexText(m[i..i + n])
        invariant crc == crc0 + IntelHex.Sum(m[i..i + n])
      {
        var b := mem[i + n];
        AppendDigits(m[i..i + n], b);
        assert m[i..i + (n + 1)] == m[i..i + n] + [b];
        line := line + IntelHex.HexText([b]);
        crc := crc + b as int;
      }
    }

    lemma AppendDigits(data: seq<byte>, b: byte)
      ensures IntelHex.HexText(data + [b]) == IntelHex.HexText(data) + IntelHex.HexText([b])
      ensures IntelHex.Sum(data + [b]) == IntelHex.Sum(data) + b as int
    {
      IntelHex.HexTextConcat(data, [b]);
      assert (data + [b])[..|data|] == data;
    }

    // ----- ELF -----

    method FromElf(file: seq<byte>, sections: seq<Section>, segments: seq<Segment>) returns (result: bool)
      requires Valid() && |file| >= 4 && Contains(file, segments)
      modifies this, mem
      ensures (Value(), result) == ImageState.FromElf(old(Value()), file, sections, segments)
    {
      if BytesWord(file[..4]) != ELF_MAGIC {
        return false;
      }
      ghost var s := Value();
      ScanSections(sections);
      StoreAllBounds(s, AllWrites(file, segments), s.roBase, rxBase, s.roMax, rxMax);
      LoadSegments(file, segments);
      RoundWindow();
      result := true;
    }

    /** The end of fromElf: the window grows to whole 2K blocks. */
    method RoundWindow()
      requires Valid()
      modifies this
      ensures var base0 := RoundDown(old(low));
        Value() == old(Value()).(low := base0, base := base0, high := RoundUp(old(high)),
                                 roBase := base0 + FLASH_BASE, rxBase := base0 + FLASH_BASE + HEADER_SIZE)
    {
      low := low - low % 2048;
      base := low;
      roBase := base + FLASH_START * 16;
      rxBase := roBase + HEADER_SIZE;
      high := (high + 2047) / 2048 * 2048;
    }

    method LoadSegments(file: seq<byte>, segments: seq<Segment>)
      requires Valid() && Contains(file, segments)
      modifies this, mem
      ensures Value() == StoreAll(old(Value()), AllWrites(file, segments)).(
                           roBase := roBase, roMax := RoMax(segments, old(roMax)))
    {
      ghost var s := Value();
      for index := 0 to |segments|
        invariant Contains(file, segments[..index])
        invariant Value() == StoreAll(s, AllWrites(file, segments[..index])).(
                               roBase := roBase, roMax := RoMax(segments[..index], s.roMax))
      {
        assert segments[..index + 1] == segments[..index] + [segments[index]];
        LoadStep(s, file, segments[..index], segments[index], roBase);
        LoadSegment(file, segments[index]);
      }
      assert segments[..|segments|] == segments;
    }

    /** One round of the segment loop, on values. */
    lemma LoadStep(s: State, file: seq<byte>, init: seq<Segment>, p: Segment, roBase0: int)
      requires Contains(file, init + [p]) && Contains(file, init)
      ensures Kept(p) ==> p.offset + p.filesz <= |file|
      ensures var roMax0 := RoMax(init, s.roMax);
        RoMax(init + [p], s.roMax) == if Kept(p) then Max(roMax0, End(p.paddr, p.filesz)) else roMax0
      ensures var before := StoreAll(s, AllWrites(file, init)).(roBase := roBase0, roMax := RoMax(init, s.roMax));
        StoreAll(s, AllWrites(file, init + [p])).(roBase := roBase0, roMax := RoMax(init, s.roMax))
        == if Kept(p) then StoreAll(before, SegmentWrites(file, p, p.filesz)) else before
    {
      assert (init + [p])[..|init|] == init;
      StoreLastSegment(s, file, init, p);
      if Kept(p) {
        var before, ws := StoreAll(s, AllWrites(file, init)), SegmentWrites(file, p, p.filesz);
        StoreAllBounds(before, ws, roBase0, before.rxBase, RoMax(init, s.roMax), before.rxMax);
        StoreAllBounds(before, ws, before.roBase, before.rxBase, before.roMax, before.rxMax);
      }
    }

    method LoadSegment(file: seq<byte>, phdr: Segment)
      requires Valid() && (Kept(phdr) ==> phdr.offset + phdr.filesz <= |file|)
      modifies this, mem
      ensures Value() ==
        (if Kept(phdr)
         then StoreAll(old(Value()), SegmentWrites(file, phdr, phdr.filesz)).(
                roBase := roBase, roMax := Max(old(roMax), End(phdr.paddr, phdr.filesz)))
         else old(Value()))
    {
      if phdr.paddr < FLASH_START * 16 || (phdr.paddr + phdr.filesz) % U64 >= FLASH_END * 16 {
        return;
      }
      if phdr.offset == 0 {
        return;
      }
      ghost var s, ws := Value(), SegmentWrites(file, phdr, phdr.filesz);
      if phdr.paddr < roBase {
        roBase := phdr.paddr;
      }
      if (phdr.paddr + phdr.filesz) % U64 > roMax {
        roMax := (phdr.paddr + phdr.filesz) % U64;
      }
      StoreAllBounds(s, ws, roBase, rxBase, roMax, rxMax);
      StoreAllBounds(s, ws, s.roBase, s.rxBase, s.roMax, s.rxMax);
      CopySegment(file, phdr);
    }

    method ScanSections(sections: seq<Section>)
      requires Valid()
      modifies this`rxBase, this`rxMax
      ensures rxMax == RxMax(sections, old(rxMax))
    {
      for k := 0 to |sections|
        invariant rxMax == RxMax(sections[..k], old(rxMax))
      {
        var shdr := sections[k];
        assert sections[..k + 1][..k] == sections[..k];
        if !shdr.alloc {
          continue;
        }
        if !shdr.exec {
          continue;
        }
        if shdr.addr < FLASH_START * 16 || (shdr.addr + shdr.size) % U64 >= FLASH_END * 16 {
          continue;
        }
        if shdr.addr < rxBase {
          rxBase := shdr.addr;
        }
        if (shdr.addr + shdr.size) % U64 > rxMax {
          rxMax := (shdr.addr + shdr.size) % U64;
        }
      }
      assert sections[..|sections|] == sections;
    }

    method CopySegment(file: seq<byte>, phdr: Segment)
      requires Valid() && phdr.offset + phdr.filesz <= |file|
      modifies this, mem
      ensures Value() == StoreAll(old(Value()), SegmentWrites(file, phdr, phdr.filesz))
    {
      for n := 0 to phdr.filesz
        invariant Value() == StoreAll(old(Value()), SegmentWrites(file, phdr, n))
      {
        assert SegmentWrites(file, phdr, n + 1)[..n] == SegmentWrites(file, phdr, n);
        Store(Target(phdr, n), file[phdr.offset + n]);
      }
    }

    // ----- padding -----

    method FillPattern(pattern: word)
      requires Valid() && base <= high
      modifies this`high, mem
      ensures Value() == Pad(old(Value()), _ => pattern)
    {
      FillFrom(_ => pattern);
    }

    /** `random(i)` is the value rand() returns for offset i. */
    method FillRandom(random: nat -> word)
      requires Valid() && base <= high
      modifies this`high, mem
      ensures Value() == Pad(old(Value()), random)
    {
      FillFrom(random);
    }

    method FillFrom(f: nat -> word)
      requires Valid() && base <= high
      modifies this`high, mem
      ensures Value() == Pad(old(Value()), f)
    {
      ghost var total := Fill(mem[..], high - base, f);
      var i := high - base;
      while i < 512 * 1024 - 2048
        invariant 0 <= i
        invariant Fill(mem[..], i, f) == total
      {
        StoreWord(mem, i, f(i));
        i := i + 4;
      }
      high := 512 * 1024 - 2048;
    }

    // ----- signing -----

    method Sign(q: Signing.Request) returns (done: bool)
      requires Valid() && q.Valid() && Signing.Signable(Value())
      modifies mem
      ensures (Value(), done) == Signing.SignImage(old(Value()), q)
    {
      ghost var s := Value();
      var fusesHash, infoHash := PrepareHeader(q);
      var imgHash := HashImage(q, s);
      done := SignHashes(q, Signing.Hashes(imgHash, fusesHash, infoHash), s);
    }

    /** Has the hashes signed and stores the signature; without one the signature
        field stays as it was prepared. */
    method SignHashes(q: Signing.Request, message: seq<byte>, ghost s: State) returns (done: bool)
      requires Valid() && q.Valid() && Signing.Signable(s) && Value() == s.(mem := mem[..])
      requires mem[..] == WriteAt(s.mem, base, Signing.CheckedHeader(s, q))
      requires message == Signing.Message(s, q)
      modifies mem
      ensures Value() == s.(mem := mem[..])
      ensures mem[..] == WriteAt(s.mem, base, Signing.FinalHeader(s, q))
      ensures done == PublicKey.Sign(q.key, message, Signing.Preloaded(q)).Some?
    {
      Signing.SignatureInput(s, q);
      assert mem.Length == MEM_SIZE;
      var preloaded := Signing.BigEndian(mem[base + Signing.SIGNATURE..base + Signing.IMG_CHK]);
      var result := PublicKey.Sign(q.key, message, preloaded);
      done := result.Some?;
      if done {
        ToArray(mem, base + Signing.SIGNATURE, RWORDS, result.value);
        Signing.WriteField(s.mem, base, Signing.CheckedHeader(s, q), Signing.SIGNATURE,
                           WordsBytes(LowLimbs(result.value, RWORDS)));
      }
    }

    /** Hashes the image from the tag on and records the check word; `s` is the
        value of the image before signing. */
    method HashImage(q: Signing.Request, ghost s: State) returns (imgHash: Signing.digest)
      requires Valid() && Signing.Signable(s) && Value() == s.(mem := mem[..])
      requires mem[..] == WriteAt(s.mem, base, Signing.HashedHeader(s, q))
      modifies mem
      ensures Value() == s.(mem := mem[..])
      ensures mem[..] == WriteAt(s.mem, base, Signing.CheckedHeader(s, q))
      ensures imgHash == Signing.ImageHash(s, q)
    {
      Signing.HashInput(s.mem, base, high, Signing.HashedHeader(s, q));
      imgHash := q.sha(mem[base + Signing.TAG..high]);
      ghost var checked := PutWord(s.mem, Signing.HashedHeader(s, q), Signing.IMG_CHK, Signing.Check(imgHash));
    }

    /** Everything sign() writes before the image is hashed. */
    method PrepareHeader(q: Signing.Request) returns (fusesHash: Signing.digest, infoHash: Signing.digest)
      requires Valid() && q.Valid() && Signing.Signable(Value())
      modifies mem
      ensures Value() == old(Value()).(mem := mem[..])
      ensures mem[..] == WriteAt(old(mem[..]), base, Signing.HashedHeader(old(Value()), q))
      ensures fusesHash == Signing.FusesHash(q) && infoHash == Signing.InfoHash(q)
    {
      ghost var s, m0 := Value(), mem[..];
      ghost var keyed := PutSizeAndKey(q);
      fusesHash := q.sha(WordsBytes(q.fuses));
      ghost var fused := PutWord(m0, keyed, Signing.FUSES_CHK, Signing.Check(fusesHash));
      infoHash := q.sha(WordsBytes(q.infos));
      ghost var hashed := PutWord(m0, fused, Signing.INFO_CHK, Signing.Check(infoHash));
      assert hashed == Signing.HashedHeader(s, q);
    }

    /** Copies the prepared header, and stores the size and the key in it. */
    method PutSizeAndKey(q: Signing.Request) returns (ghost keyed: Signing.header)
      requires Valid() && Signing.Signable(Value())
      modifies mem
      ensures keyed == WriteAt(WriteAt(q.hdr, Signing.IMAGE_SIZE, WordBytes(high - base)),
                               Signing.KEY, WordsBytes(LowLimbs(q.key.modulus, RWORDS)))
      ensures mem[..] == WriteAt(old(mem[..]), base, keyed)
    {
      ghost var m0 := mem[..];
      CopyIn(base, q.hdr);
      ghost var sized := PutWord(m0, q.hdr, Signing.IMAGE_SIZE, high - base);
      keyed := PutKey(m0, sized, q.key);
    }

    /** Stores a header field; h is the header in memory before, h' after. */
    method PutWord(ghost m0: memory, ghost h: Signing.header, off: nat, w: word) returns (ghost h': Signing.header)
      requires Valid() && 0 <= base && base + HEADER_SIZE <= MEM_SIZE && off + 4 <= HEADER_SIZE
      requires mem[..] == WriteAt(m0, base, h)
      modifies mem
      ensures h' == WriteAt(h, off, WordBytes(w)) && mem[..] == WriteAt(m0, base, h')
    {
      StoreWord(mem, base + off, w);
      Signing.WriteField(m0, base, h, off, WordBytes(w));
      h' := WriteAt(h, off, WordBytes(w));
    }

    method PutKey(ghost m0: memory, ghost h: Signing.header, key: Key) returns (ghost h': Signing.header)
      requires Valid() && 0 <= base && base + HEADER_SIZE <= MEM_SIZE
      requires mem[..] == WriteAt(m0, base, h)
      modifies mem
      ensures h' == WriteAt(h, Signing.KEY, WordsBytes(LowLimbs(key.modulus, RWORDS)))
      ensures mem[..] == WriteAt(m0, base, h')
    {
      ModToArray(key, mem, base + Signing.KEY, RWORDS);
      Signing.WriteField(m0, base, h, Signing.KEY, WordsBytes(LowLimbs(key.modulus, RWORDS)));
      h' := WriteAt(h, Signing.KEY, WordsBytes(LowLimbs(key.modulus, RWORDS)));
    }

    /** memcpy into the image memory. */
    method CopyIn(pos: nat, b: seq<byte>)
      requires Valid() && pos + |b| <= mem.Length
      modifies mem
      ensures mem[..] == WriteAt(old(mem[..]), pos, b)
    {
      for i := 0 to |b|
        invariant mem[..] == WriteAt(old(mem[..]), pos, b[..i])
      {
        mem[pos + i] := b[i];
      }
      assert b[..|b|] == b;
    }
  }
}
