/** The Intel HEX text format as the signer prints and reads it. */
module IntelHex {
  import opened Common
  import opened ImageState

  // ----- printing -----

  /** One upper-case hexadecimal digit. */
  function HexDigit(d: nat): char
    requires d < 16
  {
    if d < 10 then '0' + d as char else 'A' + (d - 10) as char
  }

  /** The digit text of a byte sequence, two digits a byte. */
  function HexText(b: seq<byte>): string {
    seq(2 * |b|, i requires 0 <= i < 2 * |b| =>
      HexDigit(if i % 2 == 0 then b[i / 2] / 16 else b[i / 2] % 16))
  }

  lemma HexTextConcat(a: seq<byte>, b: seq<byte>)
    ensures HexText(a + b) == HexText(a) + HexText(b)
  {
    forall i | 2 * |a| <= i < 2 * |a + b| ensures HexText(a + b)[i] == HexText(b)[i - 2 * |a|] {
      assert (i - 2 * |a|) / 2 == i / 2 - |a| && (i - 2 * |a|) % 2 == i % 2;
      assert (a + b)[i / 2] == b[i / 2 - |a|];
    }
  }

  /** A whole record line holding the given bytes. */
  function Record(fields: seq<byte>): string {
    ":" + HexText(fields) + "\n"
  }

  /** (~(x & 255) + 1) & 255 on two's complement integers. */
  function Negate8(x: int): byte {
    (-(x % 256) - 1 + 1) % 256
  }

  function Sum(b: seq<byte>): nat {
    if b == [] then 0 else Sum(b[..|b| - 1]) + b[|b| - 1] as int
  }

  /** The segment record: its checksum leaves out the low byte of s. */
  function SegmentFields(s: nat): seq<byte>
    requires s < 0x1_0000
  {
    [2, 0, 0, 2, s / 256, s % 256, Negate8(2 + 2 + s / 256)]
  }

  function DataFields(adr: nat, data: seq<byte>): seq<byte>
    requires adr < 0x1_0000
  {
    [16, adr / 256, adr % 256, 0] + data + [Negate8(16 + adr / 256 + adr % 256 + Sum(data))]
  }

  lemma SegmentHead()
    ensures HexText([2, 0, 0, 2]) == "02000002"
  {
  }

  /** The segment record as it is printed, piece by piece. */
  lemma SegmentText(s: nat)
    requires s < 0x1_0000
    ensures ":02000002" + HexText([s / 256, s % 256]) + HexText([Negate8(2 + 2 + s / 256)]) + "\n"
         == Record(SegmentFields(s))
  {
    var head: seq<byte>, word: seq<byte>, check := [2, 0, 0, 2], [s / 256, s % 256], Negate8(2 + 2 + s / 256);
    SegmentHead();
    DataText(head, word, check);
    assert ":" + HexText(head) == ":02000002";
    assert SegmentFields(s) == head + word + [check];
  }

  lemma DataHeadText(adr: nat)
    requires adr < 0x1_0000
    ensures ":10" + HexText([adr / 256, adr % 256]) + "00" == ":" + HexText([16, adr / 256, adr % 256, 0])
  {
    HexTextConcat([16], [adr / 256, adr % 256]);
    HexTextConcat([16, adr / 256, adr % 256], [0]);
    assert HexText([16]) == "10" && HexText([0]) == "00";
    assert [16] + [adr / 256, adr % 256] == [16, adr / 256, adr % 256];
    assert [16, adr / 256, adr % 256] + [0] == [16, adr / 256, adr % 256, 0];
  }

  /** A data record as it is printed, piece by piece. */
  lemma DataText(head: seq<byte>, data: seq<byte>, check: byte)
    ensures ":" + HexText(head) + HexText(data) + HexText([check]) + "\n" == Record(head + data + [check])
  {
    HexTextConcat(head, data);
    HexTextConcat(head + data, [check]);
    assert ":" + HexText(head) + HexText(data) + HexText([check]) + "\n"
        == ":" + (HexText(head) + HexText(data) + HexText([check])) + "\n";
  }

  lemma DataFieldsText(adr: nat, data: seq<byte>)
    requires adr < 0x1_0000
    ensures ":10" + HexText([adr / 256, adr % 256]) + "00" + HexText(data)
            + HexText([Negate8(16 + adr / 256 + adr % 256 + Sum(data))]) + "\n" == Record(DataFields(adr, data))
  {
    DataHeadText(adr);
    DataText([16, adr / 256, adr % 256, 0], data, Negate8(16 + adr / 256 + adr % 256 + Sum(data)));
  }

  /** The value of s in the segment record before offset i. */
  function SegmentAt(base: int, i: int): int {
    FLASH_START + base / 16 + (i - base) / 16
  }

  function DataRecord(mem: memory, base: nat, i: nat): string
    requires base <= i && i + 16 <= MEM_SIZE
  {
    Record(DataFields((i - base) % 0x1_0000, mem[i..i + 16]))
  }

  /** The lines printed at offset i: a segment record at the start of each 64K,
      and a data record. */
  function Chunk(mem: memory, base: nat, i: nat): seq<string>
    requires base <= i && i + 16 <= MEM_SIZE
  {
    (if (i - base) % 0x1_0000 == 0 then [Record(SegmentFields(SegmentAt(base, i)))] else [])
    + [DataRecord(mem, base, i)]
  }

  /** The lines printed from offset i to the end of the image. */
  function Lines(mem: memory, base: nat, high: int, i: nat): seq<string>
    requires base <= i && high <= MEM_SIZE && (high - i) % 16 == 0
    decreases high - i
  {
    if i >= high then [] else Chunk(mem, base, i) + Lines(mem, base, high, i + 16)
  }

  lemma ChunkText(mem: memory, base: nat, i: nat)
    requires base <= i && i + 16 <= MEM_SIZE
    ensures Flatten(Chunk(mem, base, i))
         == (if (i - base) % 0x1_0000 == 0 then Record(SegmentFields(SegmentAt(base, i))) else "") + DataRecord(mem, base, i)
  {
    var data := DataRecord(mem, base, i);
    FlattenOne(data);
    if (i - base) % 0x1_0000 == 0 {
      FlattenOne(Record(SegmentFields(SegmentAt(base, i))));
      FlattenConcat([Record(SegmentFields(SegmentAt(base, i)))], [data]);
    }
  }

  /** What toIntelHex needs to stay inside the memory. */
  predicate Printable(s: State) {
    0 <= s.base && s.high <= MEM_SIZE && s.Size() % 16 == 0
  }

  /** The lines toIntelHex prints for an image ... */
  function PrintedLines(s: State): seq<string>
    requires Printable(s)
  {
    Lines(s.mem, s.base, s.high, s.base)
  }

  function Flatten(lines: seq<string>): string {
    if lines == [] then "" else lines[0] + Flatten(lines[1..])
  }

  lemma FlattenOne(line: string)
    ensures Flatten([line]) == line
  {
    assert [line][1..] == [];
  }

  lemma {:induction false} FlattenConcat(a: seq<string>, b: seq<string>)
    ensures Flatten(a + b) == Flatten(a) + Flatten(b)
    decreases |a|
  {
    if a == [] {
      assert a + b == b;
    } else {
      assert (a + b)[1..] == a[1..] + b;
      FlattenConcat(a[1..], b);
    }
  }

  /** ... and the text of the file they make. */
  function Print(s: State): string
    requires Printable(s)
  {
    Flatten(PrintedLines(s))
  }

  // ----- the line buffer -----

  /** The size of the line buffer and of the reads of fgets. */
  const BUFSIZ: int := 8192

  type buffer = b: string | |b| == BUFSIZ witness seq(BUFSIZ, _ => 'a')

  /** How much fgets takes: up to a newline, and never the whole buffer size. */
  function ChunkLength(text: string, limit: nat): (n: nat)
    ensures n <= limit && n <= |text|
  {
    if text == [] || limit == 0 then 0
    else if text[0] == '\n' then 1
    else 1 + ChunkLength(text[1..], limit - 1)
  }

  /** What successive calls of fgets take from a text. */
  function Chunks(text: string): seq<string>
    decreases |text|
  {
    if text == [] then []
    else var n := ChunkLength(text, BUFSIZ - 1); [text[..n]] + Chunks(text[n..])
  }

  /** A string up to the first occurrence of c. */
  function Chop(line: string, c: char): (r: string)
    ensures |r| <= |line|
  {
    if line == [] || line[0] == c then [] else [line[0]] + Chop(line[1..], c)
  }

  /** The C string at the start of a buffer. */
  function CString(line: string): string {
    Chop(line, '\0')
  }

  /** fgets: the text and a terminator; what was behind them stays. */
  function Receive(line: buffer, chunk: string): buffer
    requires |chunk| < BUFSIZ
  {
    chunk + ['\0'] + line[|chunk| + 1..]
  }

  /** Ends the C string at the first occurrence of c, if there is one. */
  function Cut(line: buffer, c: char): buffer {
    if c in CString(line) && |Chop(CString(line), c)| < BUFSIZ then line[|Chop(CString(line), c)| := '\0'] else line
  }

  function LoadLine(line: buffer, chunk: string): buffer
    requires |chunk| < BUFSIZ
  {
    Cut(Cut(Receive(line, chunk), '\r'), '\n')
  }

  predicate Fit(chunks: seq<string>) {
    forall c :: c in chunks ==> |c| < BUFSIZ
  }

  /** The contents of the line buffer, round by round. */
  function Buffers(line: buffer, chunks: seq<string>): seq<buffer>
    requires Fit(chunks)
    decreases |chunks|
  {
    if chunks == [] then []
    else
      assert chunks[0] in chunks && forall c :: c in chunks[1..] ==> c in chunks;
      var next := LoadLine(line, chunks[0]);
      [next] + Buffers(next, chunks[1..])
  }

  lemma {:induction false} ChunksFit(text: string)
    ensures Fit(Chunks(text))
    decreases |text|
  {
    if text != [] {
      ChunksFit(text[ChunkLength(text, BUFSIZ - 1)..]);
    }
  }

  function BuffersOf(line: buffer, text: string): seq<buffer> {
    ChunksFit(text);
    Buffers(line, Chunks(text))
  }

  lemma BuffersStep(line: buffer, text: string)
    requires text != []
    ensures var n := ChunkLength(text, BUFSIZ - 1);
      && 0 < n < BUFSIZ
      && BuffersOf(line, text) == [LoadLine(line, text[..n])] + BuffersOf(LoadLine(line, text[..n]), text[n..])
  {
    var n := ChunkLength(text, BUFSIZ - 1);
    ChunksFit(text);
    ChunksFit(text[n..]);
    assert Chunks(text)[1..] == Chunks(text[n..]);
  }

  // ----- reading -----

  /** A character of the buffer. */
  function CharAt(line: string, p: nat): char {
    if p < |line| then line[p] else '\0'
  }

  predicate IsNibble(c: char) {
    '0' <= c <= '9' || 'a' <= c <= 'f' || 'A' <= c <= 'F'
  }

  function Nibble(c: char): (d: nat)
    ensures d < 16
  {
    if '0' <= c <= '9' then c as int - '0' as int
    else if 'a' <= c <= 'f' then c as int - 'a' as int + 10
    else if 'A' <= c <= 'F' then c as int - 'A' as int + 10
    else 0
  }

  predicate IsByteAt(line: string, p: nat) {
    IsNibble(CharAt(line, p)) && IsNibble(CharAt(line, p + 1))
  }

  function ByteAt(line: string, p: nat): byte {
    16 * Nibble(CharAt(line, p)) + Nibble(CharAt(line, p + 1))
  }

  predicate IsWordAt(line: string, p: nat) {
    IsByteAt(line, p) && IsByteAt(line, p + 2)
  }

  function WordAt(line: string, p: nat): (w: nat)
    ensures w < 0x1_0000
  {
    256 * (ByteAt(line, p) as int) + ByteAt(line, p + 2) as int
  }

  /** The reader: the image being filled, the current segment, and whether
      records currently describe RAM. */
  datatype Reader = Reader(img: State, seg: int, isRam: bool) {
    function Check(good: bool): Reader {
      this.(img := img.(ok := img.ok && good))
    }
  }

  /** One data byte at position p. */
  function ReadByte(r: Reader, line: string, p: nat, adr: int): Reader {
    var checked := r.Check(IsByteAt(line, p));
    if r.isRam then checked
    else checked.(img := Store(checked.img, r.seg * 16 + adr, ByteAt(line, p)))
  }

  function ReadBytes(r: Reader, line: string, p: nat, adr: int, len: nat): Reader
    decreases len
  {
    if len == 0 then r
    else ReadBytes(ReadByte(r, line, p, adr), line, p + 2, adr + 1, len - 1)
  }

  function ReadData(r: Reader, line: string): Reader {
    ReadBytes(r.Check(IsByteAt(line, 1) && IsWordAt(line, 3) && IsByteAt(line, 7)),
              line, 9, WordAt(line, 3), ByteAt(line, 1))
  }

  const SEGMENT_PREFIX: string := ":02000002"
  const RAM_RECORD: string := ":020000021000EC"

  function ReadSegment(r: Reader, line: buffer): Reader {
    var s := WordAt(line, 9);
    var moved :=
      if line[..9] != SEGMENT_PREFIX then r
      else
        var checked := r.Check(IsWordAt(line, 9));
        if s == 0x1000 then checked
        else if FLASH_START <= s <= FLASH_END then checked.(seg := s - FLASH_START)
        else checked.Check(false);
    moved.(isRam := CString(line) == RAM_RECORD)
  }

  function ReadLine(r: Reader, line: buffer): Reader {
    if line[0] != ':' then r
    else if |CString(line)| < 9 then r.Check(false)
    else if line[7] != '0' then r.Check(false)
    else match line[8]
      case '0' => ReadData(r, line)
      case '1' => r
      case '2' => ReadSegment(r, line)
      case '3' => r
      case _ => r.Check(false)
  }

  function ReadLines(r: Reader, lines: seq<buffer>): Reader
    decreases lines
  {
    if lines == [] then r else ReadLines(ReadLine(r, lines[0]), lines[1..])
  }

  /** The window and bounds once all lines are read. */
  function Finish(s: State, withSignature: bool): State {
    if !s.ok then s
    else
      var base := if withSignature then s.low else s.low - HEADER_SIZE;
      var high := RoundUp(s.high);
      var bottom, top := FLASH_BASE + base, FLASH_BASE + base + (high - base);
      s.(base := base, high := high, roBase := bottom, rxBase := bottom, roMax := top, rxMax := top)
  }

  /** fromIntelHex; None stands for a file that cannot be opened, `stack` for
      what the line buffer holds before the first read. */
  function FromIntelHex(s: State, file: Option<string>, withSignature: bool, stack: buffer): State {
    match file
    case None => Finish(s.(ok := false), withSignature)
    case Some(text) => Finish(ReadLines(Reader(s, 0, false), BuffersOf(stack, text)).img, withSignature)
  }
}
