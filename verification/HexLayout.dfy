/** The printed text and the characters the reader takes, written out: which
    line holds what, in which digits. */
module HexLayout {
  import opened Common
  import opened Arithmetic
  import opened ImageState
  import opened IntelHex

  // ----- digits -----

  const UPPER: string := "0123456789ABCDEF"
  const LOWER: string := "0123456789abcdef"

  /** The digits printed for a byte are upper-case, high half first. */
  lemma DigitsOfByte(b: byte)
    ensures HexText([b]) == [UPPER[b / 16], UPPER[b % 16]]
  {
    DigitIsUpper(b / 16);
    DigitIsUpper(b % 16);
    assert HexText([b]) == [HexDigit(b / 16), HexDigit(b % 16)];
  }

  lemma DigitIsUpper(d: nat)
    requires d < 16
    ensures HexDigit(d) == UPPER[d]
  {
    assert HexDigit(0) == '0' && HexDigit(9) == '9' && HexDigit(10) == 'A' && HexDigit(15) == 'F';
  }

  /** A byte sequence in such digits. */
  function Upper(b: seq<byte>): string {
    if b == [] then "" else [UPPER[b[0] / 16], UPPER[b[0] % 16]] + Upper(b[1..])
  }

  lemma {:induction false} TextIsUpper(b: seq<byte>)
    ensures HexText(b) == Upper(b)
    decreases |b|
  {
    if b != [] {
      assert b == [b[0]] + b[1..];
      HexTextConcat([b[0]], b[1..]);
      DigitsOfByte(b[0]);
      TextIsUpper(b[1..]);
    }
  }

  /** The reader takes digits of either case, and nothing else, for their value. */
  lemma NibbleIsDigit(c: char)
    ensures forall d: nat :: d < 16 && (c == UPPER[d] || c == LOWER[d]) ==> IsNibble(c) && Nibble(c) == d
    ensures c !in UPPER && c !in LOWER ==> !IsNibble(c) && Nibble(c) == 0
  {
    if IsNibble(c) {
      var d := Nibble(c);
      assert c == UPPER[d] || c == LOWER[d];
    }
  }

  // ----- characters -----

  predicate InFile(c: char) {
    c == ':' || c == '\n' || c in UPPER
  }

  lemma {:induction false} UpperInFile(b: seq<byte>)
    ensures forall c :: c in Upper(b) ==> InFile(c)
    decreases |b|
  {
    if b != [] {
      UpperInFile(b[1..]);
      assert UPPER[b[0] / 16] in UPPER && UPPER[b[0] % 16] in UPPER;
    }
  }

  lemma RecordInFile(f: seq<byte>)
    ensures forall c :: c in Record(f) ==> InFile(c)
  {
    TextIsUpper(f);
    UpperInFile(f);
  }

  predicate AllInFile(lines: seq<string>) {
    forall line :: line in lines ==> forall c :: c in line ==> InFile(c)
  }

  lemma {:induction false} LinesInFile(mem: memory, base: nat, high: int, i: nat)
    requires base <= i && high <= MEM_SIZE && (high - i) % 16 == 0
    ensures AllInFile(Lines(mem, base, high, i))
    decreases high - i
  {
    if i < high {
      LinesInFile(mem, base, high, i + 16);
      RecordInFile(DataFields((i - base) % 0x1_0000, mem[i..i + 16]));
      if (i - base) % 0x1_0000 == 0 {
        RecordInFile(SegmentFields(SegmentAt(base, i)));
      }
      var chunk, rest := Chunk(mem, base, i), Lines(mem, base, high, i + 16);
      assert forall line :: line in chunk + rest <==> line in chunk || line in rest;
    }
  }

  lemma {:induction false} FlattenInFile(lines: seq<string>)
    requires AllInFile(lines)
    ensures forall c :: c in Flatten(lines) ==> InFile(c)
    decreases |lines|
  {
    if lines != [] {
      assert lines[0] in lines && forall line :: line in lines[1..] ==> line in lines;
      FlattenInFile(lines[1..]);
    }
  }

  /** A printed file holds colons, newlines and upper-case digits only. */
  lemma PrintedCharacters(s: State)
    requires Printable(s)
    ensures forall c :: c in Print(s) ==> c == ':' || c == '\n' || '0' <= c <= '9' || 'A' <= c <= 'F'
  {
    LinesInFile(s.mem, s.base, s.high, s.base);
    FlattenInFile(PrintedLines(s));
    forall c | c in Print(s) ensures c == ':' || c == '\n' || '0' <= c <= '9' || 'A' <= c <= 'F' {
      assert InFile(c);
    }
  }

  // ----- lines -----

  /** The byte that makes a sum zero modulo 256. */
  function Complement(sum: nat): byte {
    (256 - sum % 256) % 256
  }

  lemma NegateIsComplement(x: nat)
    ensures Negate8(x) == Complement(x)
  {
  }

  /** The data record for an offset and sixteen bytes. */
  function DataLine(adr: nat, data: seq<byte>): string
    requires adr < 0x1_0000
  {
    ":10" + Upper([adr / 256, adr % 256]) + "00" + Upper(data)
    + Upper([Complement(16 + adr / 256 + adr % 256 + Sum(data))]) + "\n"
  }

  /** The segment record, whose check leaves out the low byte. */
  function SegmentLine(seg: nat): string
    requires seg < 0x1_0000
  {
    ":02000002" + Upper([seg / 256, seg % 256]) + Upper([Complement(4 + seg / 256)]) + "\n"
  }

  /** A record in three parts, each in upper-case digits. */
  lemma PartsAreUpper(a: seq<byte>, b: seq<byte>, c: byte)
    ensures HexText(a) == Upper(a) && HexText(b) == Upper(b) && HexText([c]) == Upper([c])
  {
    TextIsUpper(a);
    TextIsUpper(b);
    TextIsUpper([c]);
  }

  lemma DataRecordIsLine(adr: nat, data: seq<byte>)
    requires adr < 0x1_0000
    ensures Record(DataFields(adr, data)) == DataLine(adr, data)
  {
    var x := 16 + adr / 256 + adr % 256 + Sum(data);
    DataFieldsText(adr, data);
    NegateIsComplement(x);
    PartsAreUpper([adr / 256, adr % 256], data, Complement(x));
  }

  lemma SegmentRecordIsLine(seg: nat)
    requires seg < 0x1_0000
    ensures Record(SegmentFields(seg)) == SegmentLine(seg)
  {
    SegmentText(seg);
    NegateIsComplement(2 + 2 + seg / 256);
    TextIsUpper([seg / 256, seg % 256]);
    TextIsUpper([Negate8(2 + 2 + seg / 256)]);
  }

  /** How many lines there are from data record a up to record k, given a segment
      record in front of every 4096th. */
  function Between(a: int, k: int): int {
    k - a + (k + 4095) / 4096 - (a + 4095) / 4096
  }

  lemma BetweenStep(a: nat, k: nat)
    requires a < k
    ensures Between(a, k) == 1 + (if a % 4096 == 0 then 1 else 0) + Between(a + 1, k)
    ensures Between(a + 1, k) >= 0
  {
  }

  lemma OffsetOf(base: nat, a: nat)
    ensures var i := base + 16 * a;
      (i - base) % 0x1_0000 == 0 <==> a % 4096 == 0
  {
  }

  lemma LinesFrom(mem: memory, base: nat, n: nat, a: nat)
    requires base + 16 * n <= MEM_SIZE && a < n
    ensures var i := base + 16 * a;
      && (base + 16 * n - i) % 16 == 0 && (base + 16 * n - (i + 16)) % 16 == 0
      && Lines(mem, base, base + 16 * n, i) == Chunk(mem, base, i) + Lines(mem, base, base + 16 * n, i + 16)
      && |Chunk(mem, base, i)| == 1 + if a % 4096 == 0 then 1 else 0
  {
    OffsetOf(base, a);
    assert base + 16 * n - (base + 16 * a) == 16 * (n - a);
  }

  /** The lines from data record a on, of n. */
  function LinesOf(mem: memory, base: nat, n: nat, a: nat): seq<string>
    requires base + 16 * n <= MEM_SIZE && a <= n
  {
    assert base + 16 * n - (base + 16 * a) == 16 * (n - a);
    Lines(mem, base, base + 16 * n, base + 16 * a)
  }

  function ChunkOf(mem: memory, base: nat, a: nat): seq<string>
    requires base + 16 * a + 16 <= MEM_SIZE
  {
    Chunk(mem, base, base + 16 * a)
  }

  lemma NextLines(mem: memory, base: nat, n: nat, a: nat)
    requires base + 16 * n <= MEM_SIZE && a < n
    ensures LinesOf(mem, base, n, a) == ChunkOf(mem, base, a) + LinesOf(mem, base, n, a + 1)
    ensures |ChunkOf(mem, base, a)| == 1 + if a % 4096 == 0 then 1 else 0
  {
    LinesFrom(mem, base, n, a);
    assert base + 16 * (a + 1) == base + 16 * a + 16;
  }

  lemma {:induction false} LineCount(mem: memory, base: nat, n: nat, a: nat)
    requires base + 16 * n <= MEM_SIZE && a <= n
    ensures |LinesOf(mem, base, n, a)| == Between(a, n)
    decreases n - a
  {
    if a < n {
      NextLines(mem, base, n, a);
      BetweenStep(a, n);
      LineCount(mem, base, n, a + 1);
    }
  }

  /** The lines of data record k begin at position `at`. */
  predicate BeginsAt(lines: seq<string>, at: int, chunk: seq<string>) {
    0 <= at && at + |chunk| <= |lines| && lines[at..at + |chunk|] == chunk
  }

  lemma BeginsLater(first: seq<string>, rest: seq<string>, at: int, chunk: seq<string>)
    requires BeginsAt(rest, at, chunk)
    ensures BeginsAt(first + rest, |first| + at, chunk)
  {
    assert (first + rest)[|first| + at..|first| + at + |chunk|] == rest[at..at + |chunk|];
  }

  lemma {:induction false} ChunkAt(mem: memory, base: nat, n: nat, a: nat, k: nat)
    requires base + 16 * n <= MEM_SIZE && a <= k < n
    ensures BeginsAt(LinesOf(mem, base, n, a), Between(a, k), ChunkOf(mem, base, k))
    decreases k - a
  {
    NextLines(mem, base, n, a);
    if a < k {
      BetweenStep(a, k);
      ChunkAt(mem, base, n, a + 1, k);
      BeginsLater(ChunkOf(mem, base, a), LinesOf(mem, base, n, a + 1), Between(a + 1, k), ChunkOf(mem, base, k));
    }
  }

  /** The lines for sixteen bytes at an offset from the segment and its number. */
  function LinesFor(adr: nat, seg: nat, data: seq<byte>): seq<string>
    requires adr < 0x1_0000 && seg < 0x1_0000
  {
    (if adr == 0 then [SegmentLine(seg)] else []) + [DataLine(adr, data)]
  }

  lemma ChunkInDigits(mem: memory, base: nat, i: nat, adr: nat, seg: nat)
    requires base <= i && i + 16 <= MEM_SIZE
    requires adr == (i - base) % 0x1_0000 && seg == SegmentAt(base, i) && seg < 0x1_0000
    ensures Chunk(mem, base, i) == LinesFor(adr, seg, mem[i..i + 16])
  {
    DataRecordIsLine(adr, mem[i..i + 16]);
    SegmentRecordIsLine(seg);
  }

  /** The lines for the k-th sixteen bytes of an image. */
  function GroupLines(mem: memory, base: nat, k: nat): seq<string>
    requires base + 16 * k + 16 <= MEM_SIZE
  {
    var i := base + 16 * k;
    LinesFor(16 * k % 0x1_0000, 0x4000 + base / 16 + k, mem[i..i + 16])
  }

  lemma GroupOffsets(base: nat, k: nat, i: nat)
    requires i == base + 16 * k && i + 16 <= MEM_SIZE
    ensures (i - base) % 0x1_0000 == 16 * k % 0x1_0000
    ensures SegmentAt(base, i) == 0x4000 + base / 16 + k < 0x1_0000
  {
  }

  lemma GroupIsPrinted(mem: memory, base: nat, k: nat)
    requires base + 16 * k + 16 <= MEM_SIZE
    ensures ChunkOf(mem, base, k) == GroupLines(mem, base, k)
  {
    var i := base + 16 * k;
    GroupOffsets(base, k, i);
    ChunkInDigits(mem, base, i, 16 * k % 0x1_0000, 0x4000 + base / 16 + k);
  }

  /** The number of lines in front of group k. */
  function LinesBefore(k: nat): nat {
    k + (k + 4095) / 4096
  }

  lemma GroupAt(mem: memory, base: nat, n: nat, k: nat)
    requires base + 16 * n <= MEM_SIZE && k < n
    ensures BeginsAt(LinesOf(mem, base, n, 0), LinesBefore(k), GroupLines(mem, base, k))
  {
    ChunkAt(mem, base, n, 0, k);
    GroupIsPrinted(mem, base, k);
    assert Between(0, k) == LinesBefore(k);
  }

  lemma PrintedIsLinesOf(s: State, n: nat)
    requires 0 <= s.base && s.high == s.base + 16 * n && s.high <= MEM_SIZE
    ensures Printable(s) && PrintedLines(s) == LinesOf(s.mem, s.base, n, 0)
  {
    assert s.Size() == 16 * n;
  }

  /** The whole text of an image, line by line: for n groups of sixteen bytes there
      are n data records, in front of every 4096th a segment record, nothing else,
      and group k stands behind the k data records and the segment records so far. */
  lemma PrintedLayout(s: State, n: nat)
    requires 0 <= s.base && s.high == s.base + 16 * n && s.high <= MEM_SIZE
    ensures Printable(s) && |PrintedLines(s)| == LinesBefore(n)
    ensures forall k: nat :: k < n ==> BeginsAt(PrintedLines(s), LinesBefore(k), GroupLines(s.mem, s.base, k))
  {
    var lines := LinesOf(s.mem, s.base, n, 0);
    PrintedIsLinesOf(s, n);
    LineCount(s.mem, s.base, n, 0);
    forall k: nat | k < n ensures BeginsAt(lines, LinesBefore(k), GroupLines(s.mem, s.base, k)) {
      GroupAt(s.mem, s.base, n, k);
    }
  }
}
