/** Printing an image and reading the text back restores it, and the records
    printed carry the checksums the format asks for, except one. */
module HexRoundTrip {
  import opened Common
  import opened Arithmetic
  import opened ImageState
  import opened IntelHex

  // ----- one record -----

  lemma DigitRoundTrip(d: nat)
    requires d < 16
    ensures IsNibble(HexDigit(d)) && Nibble(HexDigit(d)) == d
  {
  }

  lemma {:induction false} ChopAt(text: string, c: char, rest: string)
    requires c !in text
    ensures Chop(text + [c] + rest, c) == text
    decreases |text|
  {
    if text != [] {
      assert (text + [c] + rest)[1..] == text[1..] + [c] + rest;
      ChopAt(text[1..], c, rest);
    }
  }

  /** None of the characters that end a line or a string. */
  predicate Plain(text: string) {
    '\0' !in text && '\r' !in text && '\n' !in text
  }

  lemma RecordIsPlain(f: seq<byte>)
    ensures Plain(":" + HexText(f))
  {
    forall c | c in HexText(f) ensures c != '\0' && c != '\r' && c != '\n' {
      var i :| 0 <= i < |HexText(f)| && HexText(f)[i] == c;
      DigitRoundTrip(if i % 2 == 0 then f[i / 2] / 16 else f[i / 2] % 16);
    }
  }

  /** The buffer holds the text as a C string. */
  predicate Shown(line: buffer, text: string) {
    |text| < BUFSIZ && line[..|text|] == text && CString(line) == text
  }

  lemma HoldsText(line: buffer, text: string)
    requires Plain(text) && |text| < BUFSIZ && line[..|text|] == text && line[|text|] == '\0'
    ensures Shown(line, text)
  {
    assert line == text + ['\0'] + line[|text| + 1..];
    ChopAt(text, '\0', line[|text| + 1..]);
  }

  lemma ReceivedLine(line: buffer, text: string)
    requires Plain(text) && |text| + 1 < BUFSIZ
    ensures var got := Receive(line, text + "\n");
      CString(got) == text + "\n" && got[..|text|] == text
  {
    ChopAt(text + "\n", '\0', line[|text| + 2..]);
  }

  /** fgets and both cuts leave a line without its newline in the buffer,
      whatever the buffer held. */
  lemma LoadedLine(line: buffer, text: string)
    requires Plain(text) && |text| + 1 < BUFSIZ
    ensures Shown(LoadLine(line, text + "\n"), text)
  {
    var got := Receive(line, text + "\n");
    ReceivedLine(line, text);
    assert '\r' !in text + "\n";
    assert Cut(got, '\r') == got;
    ChopAt(text, '\n', "");
    assert text + ['\n'] + "" == text + "\n";
    assert (text + "\n")[|text|] == '\n';
    assert LoadLine(line, text + "\n") == got[|text| := '\0'];
    HoldsText(got[|text| := '\0'], text);
  }

  /** The buffer holds the record of f. */
  predicate ShowsRecord(line: buffer, f: seq<byte>) {
    Shown(line, ":" + HexText(f))
  }

  lemma LoadedRecord(line: buffer, f: seq<byte>)
    requires |f| <= 255
    ensures |Record(f)| < BUFSIZ && ShowsRecord(LoadLine(line, Record(f)), f)
  {
    RecordIsPlain(f);
    LoadedLine(line, ":" + HexText(f));
  }

  lemma RecordChar(line: buffer, f: seq<byte>, i: nat)
    requires ShowsRecord(line, f) && i < 2 * |f|
    ensures 1 + i < BUFSIZ && line[1 + i] == HexText(f)[i]
  {
    var text := ":" + HexText(f);
    assert line[1 + i] == line[..|text|][1 + i];
  }

  /** The reader sees byte k of a record at position 1 + 2k. */
  lemma FieldOfRecord(line: buffer, f: seq<byte>, k: nat)
    requires ShowsRecord(line, f) && k < |f|
    ensures IsByteAt(line, 1 + 2 * k) && ByteAt(line, 1 + 2 * k) == f[k]
  {
    DigitRoundTrip(f[k] / 16);
    DigitRoundTrip(f[k] % 16);
    RecordChar(line, f, 2 * k);
    RecordChar(line, f, 2 * k + 1);
    assert (2 * k + 1) / 2 == k;
  }

  lemma RecordStart(line: buffer, f: seq<byte>)
    requires ShowsRecord(line, f) && |f| >= 4 && f[3] < 16
    ensures |CString(line)| >= 9 && line[0] == ':' && line[7] == '0' && line[8] == HexDigit(f[3])
  {
    RecordChar(line, f, 6);
    RecordChar(line, f, 7);
    assert line[0] == line[..1 + 2 * |f|][0];
    assert HexText(f)[6] == HexDigit(f[3] / 16);
    assert HexText(f)[7] == HexDigit(f[3] % 16);
  }

  lemma SegmentPrefix(line: buffer, s: nat)
    requires s < 0x1_0000 && ShowsRecord(line, SegmentFields(s))
    ensures line[..9] == SEGMENT_PREFIX
  {
    var f := SegmentFields(s);
    var text := ":" + HexText(f);
    assert text[..9] == SEGMENT_PREFIX by {
      assert HexText(f)[..8] == "02000002";
    }
    assert line[..|text|][..9] == line[..9];
  }

  /** The record of a segment in flash is not the one for RAM. */
  lemma NotTheRamRecord(s: nat)
    requires FLASH_START <= s < 0x1_0000
    ensures ":" + HexText(SegmentFields(s)) != RAM_RECORD
  {
    var f := SegmentFields(s);
    assert (":" + HexText(f))[9] == HexDigit(f[4] / 16);
    assert f[4] >= 0x40 && RAM_RECORD[9] == '1';
  }

  /** Reading a segment record moves the segment, whatever came before. */
  lemma ReadSegmentRecord(r: Reader, line: buffer, s: nat)
    requires FLASH_START <= s < 0x1_0000 && ShowsRecord(line, SegmentFields(s))
    ensures ReadLine(r, line) == r.(seg := s - FLASH_START, isRam := false)
  {
    var f := SegmentFields(s);
    RecordStart(line, f);
    FieldOfRecord(line, f, 4);
    FieldOfRecord(line, f, 5);
    assert WordAt(line, 9) == s;
    SegmentPrefix(line, s);
    NotTheRamRecord(s);
    assert r.Check(true) == r;
  }

  /** The digit pairs of a line from position p on are those of `data`. */
  ghost predicate Shows(line: string, p: nat, data: seq<byte>) {
    forall j: nat :: j < |data| ==> IsByteAt(line, p + 2 * j) && ByteAt(line, p + 2 * j) == data[j]
  }

  lemma ShowsRest(line: string, p: nat, data: seq<byte>)
    requires Shows(line, p, data) && data != []
    ensures IsByteAt(line, p) && ByteAt(line, p) == data[0]
    ensures Shows(line, p + 2, data[1..])
  {
    assert p + 2 * 0 == p;
    forall j: nat | j < |data[1..]|
      ensures IsByteAt(line, p + 2 + 2 * j) && ByteAt(line, p + 2 + 2 * j) == data[1..][j]
    {
      assert data[1..][j] == data[j + 1];
      assert p + 2 * (j + 1) == p + 2 + 2 * j;
    }
  }

  /** One good data byte is stored where segment and offset say. */
  lemma ReadGoodByte(r: Reader, line: string, p: nat, adr: int, start: int)
    requires !r.isRam && IsByteAt(line, p) && start == r.seg * 16 + adr
    ensures ReadByte(r, line, p, adr) == r.(img := Store(r.img, start, ByteAt(line, p)))
  {
  }

  lemma NothingToStore(s: State, i: int)
    ensures StoreAll(s, Run(i, [])) == s
  {
    assert Run(i, []) == [];
  }

  /** A store, then the rest of the run. */
  lemma StoredFirst(r: Reader, next: Reader, data: seq<byte>, start: int)
    requires data != [] && next == r.(img := Store(r.img, start, data[0]))
    ensures next.(img := StoreAll(next.img, Run(start + 1, data[1..]))) == r.(img := StoreAll(r.img, Run(start, data)))
  {
    RunFirst(r.img, start, data);
  }

  lemma ReadsFirst(r: Reader, line: string, p: nat, adr: int, len: nat)
    requires len > 0
    ensures ReadBytes(r, line, p, adr, len) == ReadBytes(ReadByte(r, line, p, adr), line, p + 2, adr + 1, len - 1)
  {
  }

  /** The data bytes of a line are stored one after the other. */
  lemma {:induction false} ReadDataBytes(r: Reader, line: string, p: nat, adr: int, data: seq<byte>, start: int)
    requires !r.isRam && Shows(line, p, data) && start == r.seg * 16 + adr
    ensures ReadBytes(r, line, p, adr, |data|) == r.(img := StoreAll(r.img, Run(start, data)))
    decreases |data|
  {
    if data == [] {
      NothingToStore(r.img, start);
    } else {
      ShowsRest(line, p, data);
      ReadGoodByte(r, line, p, adr, start);
      var next := r.(img := Store(r.img, start, data[0]));
      ReadsFirst(r, line, p, adr, |data|);
      ReadDataBytes(next, line, p + 2, adr + 1, data[1..], start + 1);
      StoredFirst(r, next, data, start);
    }
  }

  lemma DataRecordHeader(line: buffer, adr: nat, data: seq<byte>)
    requires adr < 0x1_0000 && |data| == 16 && ShowsRecord(line, DataFields(adr, data))
    ensures IsByteAt(line, 1) && ByteAt(line, 1) == 16
    ensures IsWordAt(line, 3) && WordAt(line, 3) == adr && IsByteAt(line, 7)
  {
    var f := DataFields(adr, data);
    FieldOfRecord(line, f, 0);
    FieldOfRecord(line, f, 1);
    FieldOfRecord(line, f, 2);
    FieldOfRecord(line, f, 3);
  }

  lemma DataRecordShows(line: buffer, adr: nat, data: seq<byte>)
    requires adr < 0x1_0000 && |data| == 16 && ShowsRecord(line, DataFields(adr, data))
    ensures Shows(line, 9, data)
  {
    var f := DataFields(adr, data);
    forall j: nat | j < 16 ensures IsByteAt(line, 9 + 2 * j) && ByteAt(line, 9 + 2 * j) == data[j] {
      FieldOfRecord(line, f, 4 + j);
      assert 1 + 2 * (4 + j) == 9 + 2 * j;
      assert f[4 + j] == data[j];
    }
  }

  lemma ReadDataLine(r: Reader, line: string, adr: nat, data: seq<byte>)
    requires !r.isRam && Shows(line, 9, data)
    requires IsByteAt(line, 1) && ByteAt(line, 1) == |data|
    requires IsWordAt(line, 3) && WordAt(line, 3) == adr && IsByteAt(line, 7)
    ensures ReadData(r, line) == r.(img := StoreAll(r.img, Run(r.seg * 16 + adr, data)))
  {
    assert r.Check(true) == r;
    ReadDataBytes(r, line, 9, adr, data, r.seg * 16 + adr);
  }

  /** Reading a data record stores its sixteen bytes. */
  lemma ReadDataRecord(r: Reader, line: buffer, adr: nat, data: seq<byte>)
    requires !r.isRam && adr < 0x1_0000 && |data| == 16 && ShowsRecord(line, DataFields(adr, data))
    ensures ReadLine(r, line) == r.(img := StoreAll(r.img, Run(r.seg * 16 + adr, data)))
  {
    RecordStart(line, DataFields(adr, data));
    DataRecordHeader(line, adr, data);
    DataRecordShows(line, adr, data);
    ReadDataLine(r, line, adr, data);
  }

  // ----- the lines of a file -----

  /** A line as it is printed: short, and ended by its only newline. */
  predicate IsLine(line: string) {
    0 < |line| < BUFSIZ && line[|line| - 1] == '\n' && '\n' !in line[..|line| - 1]
  }

  lemma RecordIsLine(f: seq<byte>)
    requires |f| <= 255
    ensures IsLine(Record(f))
  {
    RecordIsPlain(f);
    assert Record(f)[..|Record(f)| - 1] == ":" + HexText(f);
  }

  lemma {:induction false} TakesWholeLine(line: string, rest: string, limit: nat)
    requires 0 < |line| <= limit && line[|line| - 1] == '\n' && '\n' !in line[..|line| - 1]
    ensures ChunkLength(line + rest, limit) == |line|
    decreases |line|
  {
    if |line| > 1 {
      assert line[0] in line[..|line| - 1];
      assert (line + rest)[1..] == line[1..] + rest;
      assert line[1..][..|line| - 2] == line[..|line| - 1][1..];
      TakesWholeLine(line[1..], rest, limit - 1);
    }
  }

  /** fgets takes a printed file line by line. */
  lemma {:induction false} ChunksOfLines(lines: seq<string>)
    requires forall line :: line in lines ==> IsLine(line)
    ensures Chunks(Flatten(lines)) == lines
    decreases |lines|
  {
    if lines != [] {
      var line, rest := lines[0], Flatten(lines[1..]);
      assert line in lines && forall l :: l in lines[1..] ==> l in lines;
      TakesWholeLine(line, rest, BUFSIZ - 1);
      assert (line + rest)[..|line|] == line && (line + rest)[|line|..] == rest;
      ChunksOfLines(lines[1..]);
    }
  }

  lemma ChunkIsLines(mem: memory, base: nat, i: nat)
    requires base <= i && i + 16 <= MEM_SIZE
    ensures forall line :: line in Chunk(mem, base, i) ==> IsLine(line)
  {
    RecordIsLine(DataFields((i - base) % 0x1_0000, mem[i..i + 16]));
    if (i - base) % 0x1_0000 == 0 {
      RecordIsLine(SegmentFields(SegmentAt(base, i)));
    }
  }

  lemma {:induction false} PrintsLines(mem: memory, base: nat, high: int, i: nat)
    requires base <= i && high <= MEM_SIZE && (high - i) % 16 == 0
    ensures forall line :: line in Lines(mem, base, high, i) ==> IsLine(line)
    decreases high - i
  {
    if i < high {
      ChunkIsLines(mem, base, i);
      PrintsLines(mem, base, high, i + 16);
    }
  }

  lemma LinesFit(lines: seq<string>)
    requires forall line :: line in lines ==> IsLine(line)
    ensures Fit(lines)
  {
  }

  // ----- the whole image -----

  /** What the reader makes of the chunks of a file. */
  function ReadChunks(r: Reader, line: buffer, chunks: seq<string>): Reader
    requires Fit(chunks)
  {
    ReadLines(r, Buffers(line, chunks))
  }

  /** The first chunk is read, and the others with what it leaves in the buffer. */
  lemma ReadFirst(r: Reader, line: buffer, chunk: string, rest: seq<string>)
    requires Fit([chunk] + rest)
    ensures Fit(rest) && |chunk| < BUFSIZ
    ensures var next := LoadLine(line, chunk);
      ReadChunks(r, line, [chunk] + rest) == ReadChunks(ReadLine(r, next), next, rest)
  {
    var all := [chunk] + rest;
    assert chunk in all && forall c :: c in rest ==> c in all;
    assert all[0] == chunk && all[1..] == rest;
    var next := LoadLine(line, chunk);
    assert ([next] + Buffers(next, rest))[1..] == Buffers(next, rest);
  }

  /** The reader is at the 64K segment that offset i belongs to. */
  predicate InSegmentOf(r: Reader, base: nat, i: nat)
    requires base <= i
  {
    !r.isRam && r.seg * 16 == i - (i - base) % 0x1_0000
  }

  /** The first record of a text is read from a buffer that holds it. */
  lemma ReadRecord(r: Reader, line: buffer, f: seq<byte>, rest: seq<string>) returns (line': buffer)
    requires |f| <= 255 && Fit([Record(f)] + rest)
    ensures Fit(rest) && ShowsRecord(line', f)
    ensures ReadChunks(r, line, [Record(f)] + rest) == ReadChunks(ReadLine(r, line'), line', rest)
  {
    LoadedRecord(line, f);
    ReadFirst(r, line, Record(f), rest);
    line' := LoadLine(line, Record(f));
  }

  /** Reading a printed segment record, ahead of other lines. */
  lemma ReadSegmentChunk(r: Reader, line: buffer, base: nat, i: nat, rest: seq<string>) returns (r': Reader, line': buffer)
    requires base % 16 == 0 && base <= i && i + 16 <= MEM_SIZE && (i - base) % 0x1_0000 == 0
    requires Fit([Record(SegmentFields(SegmentAt(base, i)))] + rest)
    ensures Fit(rest) && InSegmentOf(r', base, i) && r'.img == r.img
    ensures ReadChunks(r, line, [Record(SegmentFields(SegmentAt(base, i)))] + rest) == ReadChunks(r', line', rest)
  {
    var s := SegmentAt(base, i);
    SegmentStart(base, i);
    line' := ReadRecord(r, line, SegmentFields(s), rest);
    ReadSegmentRecord(r, line', s);
    r' := ReadLine(r, line');
  }

  lemma SegmentOffset(r: Reader, base: nat, i: nat)
    requires base <= i && InSegmentOf(r, base, i)
    ensures !r.isRam && r.seg * 16 + (i - base) % 0x1_0000 == i
  {
  }

  lemma ReadDataChunk(r: Reader, line: buffer, mem: memory, base: nat, i: nat, rest: seq<string>)
      returns (r': Reader, line': buffer)
    requires base <= i && i + 16 <= MEM_SIZE && InSegmentOf(r, base, i)
    requires Fit([DataRecord(mem, base, i)] + rest)
    ensures Fit(rest) && InSegmentOf(r', base, i) && r'.img == StoreAll(r.img, Run(i, mem[i..i + 16]))
    ensures ReadChunks(r, line, [DataRecord(mem, base, i)] + rest) == ReadChunks(r', line', rest)
  {
    var adr, data := (i - base) % 0x1_0000, mem[i..i + 16];
    line' := ReadRecord(r, line, DataFields(adr, data), rest);
    SegmentOffset(r, base, i);
    ReadDataRecord(r, line', adr, data);
    r' := r.(img := StoreAll(r.img, Run(i, data)));
  }

  /** Reading the lines printed at offset i stores sixteen bytes there. */
  lemma ReadChunk(r: Reader, line: buffer, mem: memory, base: nat, i: nat, rest: seq<string>)
      returns (r': Reader, line': buffer)
    requires base % 16 == 0 && base <= i && i + 16 <= MEM_SIZE && (i - base) % 16 == 0
    requires (i - base) % 0x1_0000 == 0 || InSegmentOf(r, base, i)
    requires Fit(Chunk(mem, base, i) + rest)
    ensures Fit(rest) && InSegmentOf(r', base, i) && r'.img == StoreAll(r.img, Run(i, mem[i..i + 16]))
    ensures ReadChunks(r, line, Chunk(mem, base, i) + rest) == ReadChunks(r', line', rest)
  {
    r', line' := r, line;
    var data := [DataRecord(mem, base, i)];
    if (i - base) % 0x1_0000 == 0 {
      var segment := [Record(SegmentFields(SegmentAt(base, i)))];
      assert Chunk(mem, base, i) + rest == segment + (data + rest);
      r', line' := ReadSegmentChunk(r, line, base, i, data + rest);
    } else {
      assert Chunk(mem, base, i) + rest == data + rest;
    }
    r', line' := ReadDataChunk(r', line', mem, base, i, rest);
  }

  /** Two runs of stores, one behind the other. */
  lemma RunsJoin(s: State, mem: memory, i: nat, mid: nat, high: nat)
    requires i <= mid <= high <= MEM_SIZE
    ensures StoreAll(StoreAll(s, Run(i, mem[i..mid])), Run(mid, mem[mid..high])) == StoreAll(s, Run(i, mem[i..high]))
  {
    SliceSplit(mem, i, mid, high);
    RunConcat(s, i, mem[i..mid], mem[mid..high]);
  }

  lemma SegmentStart(base: nat, i: nat)
    requires base % 16 == 0 && base <= i < MEM_SIZE && (i - base) % 0x1_0000 == 0
    ensures FLASH_START <= SegmentAt(base, i) < 0x1_0000
    ensures (SegmentAt(base, i) - FLASH_START) * 16 == i
  {
  }

  /** The reader is ready for the lines printed at offset i. */
  predicate ReadyFor(r: Reader, base: nat, high: int, i: nat) {
    && base % 16 == 0 && base <= i <= high <= MEM_SIZE && (high - i) % 16 == 0 && (i - base) % 16 == 0
    && ((i - base) % 0x1_0000 == 0 || InSegmentOf(r, base, i))
  }

  lemma ChunkFollows(r: Reader, mem: memory, base: nat, high: int, i: nat)
    requires ReadyFor(r, base, high, i) && i < high
    ensures i + 16 <= high && (high - (i + 16)) % 16 == 0
    ensures Lines(mem, base, high, i) == Chunk(mem, base, i) + Lines(mem, base, high, i + 16)
  {
  }

  lemma NextOffset(r: Reader, r': Reader, base: nat, high: int, i: nat)
    requires ReadyFor(r, base, high, i) && i < high && InSegmentOf(r', base, i)
    ensures ReadyFor(r', base, high, i + 16)
  {
  }

  /** Reading the lines printed from offset i on stores the bytes from i on,
      across any number of segment records, whatever the line buffer holds. */
  lemma {:induction false} ReadPrinted(r: Reader, line: buffer, mem: memory, base: nat, high: int, i: nat)
    requires ReadyFor(r, base, high, i) && Fit(Lines(mem, base, high, i))
    ensures ReadChunks(r, line, Lines(mem, base, high, i)).img == StoreAll(r.img, Run(i, mem[i..high]))
    decreases high - i
  {
    if i == high {
      assert mem[i..high] == [];
      NothingToStore(r.img, i);
    } else {
      ChunkFollows(r, mem, base, high, i);
      var rest := Lines(mem, base, high, i + 16);
      var r', line' := ReadChunk(r, line, mem, base, i, rest);
      NextOffset(r, r', base, high, i);
      ReadPrinted(r', line', mem, base, high, i + 16);
      RunsJoin(r.img, mem, i, i + 16, high);
    }
  }

  /** The alignment every loaded image has. */
  predicate Aligned(s: State) {
    s.base % BLOCK == 0 && s.high % BLOCK == 0 && 0 <= s.base <= s.high <= MEM_SIZE && Printable(s)
  }

  /** toIntelHex never reads past the memory of an image made of blocks. */
  lemma BlocksArePrintable(s: State)
    requires s.base % BLOCK == 0 && s.high % BLOCK == 0 && 0 <= s.base <= s.high <= MEM_SIZE
    ensures Printable(s) && s.base % 16 == 0
  {
    var b, h := s.base / BLOCK, s.high / BLOCK;
    DivModUnique(s.Size(), 16, 128 * (h - b), 0);
    DivModUnique(s.base, 16, 128 * b, 0);
  }

  /** `t` has the window of `s` and every byte in it. */
  predicate SameImage(s: State, t: State) {
    && t.ok && t.base == s.base && t.high == s.high
    && (0 <= s.base <= s.high <= MEM_SIZE ==> t.mem[s.base..s.high] == s.mem[s.base..s.high])
  }

  /** The state reached by reading an image's own text. */
  lemma ReadBack(s: State, stack: buffer)
    requires Aligned(s)
    ensures FromIntelHex(Fresh(), Some(Print(s)), true, stack)
         == Finish(StoreAll(Fresh(), Run(s.base, s.mem[s.base..s.high])), true)
  {
    var lines := PrintedLines(s);
    BlocksArePrintable(s);
    PrintsLines(s.mem, s.base, s.high, s.base);
    LinesFit(lines);
    ChunksOfLines(lines);
    ReadPrinted(Reader(Fresh(), 0, false), stack, s.mem, s.base, s.high, s.base);
  }

  /** Reading what was printed into a fresh image restores window and bytes,
      exactly when the image is not empty, whatever was on the stack before. */
  lemma PrintReadRoundTrip(s: State, stack: buffer)
    requires Aligned(s)
    ensures SameImage(s, FromIntelHex(Fresh(), Some(Print(s)), true, stack)) <==> s.base < s.high
  {
    var bytes := s.mem[s.base..s.high];
    ReadBack(s, stack);
    if s.base < s.high {
      RunEffect(Fresh(), s.base, bytes);
      SliceSame(Fresh().mem, s.base, bytes);
      RoundUpLastByte(s.high);
    } else {
      assert StoreAll(Fresh(), Run(s.base, bytes)) == Fresh();
      assert Finish(Fresh(), true).base == MEM_SIZE && Finish(Fresh(), true).high == 0;
    }
  }

  /** Images that print alike are alike. */
  lemma PrintIsInjective(s: State, t: State)
    requires Aligned(s) && Aligned(t) && s.base < s.high && t.base < t.high
    requires Print(s) == Print(t)
    ensures s.base == t.base && s.high == t.high && s.mem[s.base..s.high] == t.mem[t.base..t.high]
  {
    var stack: buffer := seq(BUFSIZ, _ => '\0');
    PrintReadRoundTrip(s, stack);
    PrintReadRoundTrip(t, stack);
  }
}
