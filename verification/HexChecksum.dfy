/** The checksum rule of the Intel HEX format, and which printed records obey it. */
module HexChecksum {
  import opened Common
  import opened Arithmetic
  import opened ImageState
  import opened IntelHex
  import opened HexRoundTrip

  /** The bytes a printed line spells out between its colon and its newline. */
  function FieldsOf(line: string): seq<byte> {
    if |line| < 2 then [] else seq((|line| - 2) / 2, k requires 0 <= k => ByteAt(line, 1 + 2 * k))
  }

  /** The rule: all bytes of a record, its checksum included, add up to zero modulo 256. */
  predicate ChecksumHolds(line: string) {
    Sum(FieldsOf(line)) % 256 == 0
  }

  lemma ByteOfRecord(f: seq<byte>, k: nat)
    requires k < |f|
    ensures ByteAt(Record(f), 1 + 2 * k) == f[k]
  {
    var line := Record(f);
    DigitRoundTrip(f[k] / 16);
    DigitRoundTrip(f[k] % 16);
    assert CharAt(line, 1 + 2 * k) == HexText(f)[2 * k] == HexDigit(f[k] / 16);
    assert CharAt(line, 2 + 2 * k) == HexText(f)[2 * k + 1] == HexDigit(f[k] % 16) by {
      assert (2 * k + 1) / 2 == k;
    }
    DivModIdentity(f[k], 16);
  }

  lemma FieldsOfRecord(f: seq<byte>)
    ensures FieldsOf(Record(f)) == f
  {
    assert |FieldsOf(Record(f))| == |f|;
    forall k: nat | k < |f| ensures FieldsOf(Record(f))[k] == f[k] {
      ByteOfRecord(f, k);
    }
  }

  lemma {:induction false} SumConcat(a: seq<byte>, b: seq<byte>)
    ensures Sum(a + b) == Sum(a) + Sum(b)
    decreases |b|
  {
    if b == [] {
      assert a + b == a;
    } else {
      assert (a + b)[..|a + b| - 1] == a + b[..|b| - 1];
      SumConcat(a, b[..|b| - 1]);
    }
  }

  lemma SumOne(x: byte)
    ensures Sum([x]) == x as int
  {
    assert [x][..0] == [];
  }

  lemma SumFour(a: byte, b: byte, c: byte, d: byte)
    ensures Sum([a, b, c, d]) == a as int + b as int + c as int + d as int
  {
    SumOne(a);
    SumOne(b);
    SumOne(c);
    SumOne(d);
    SumConcat([a], [b]);
    SumConcat([a, b], [c]);
    SumConcat([a, b, c], [d]);
    assert [a] + [b] == [a, b] && [a, b] + [c] == [a, b, c] && [a, b, c] + [d] == [a, b, c, d];
  }

  lemma Negate8Cancels(x: int, lo: byte)
    ensures (x + Negate8(x) as int) % 256 == 0
    ensures (x + lo as int + Negate8(x) as int) % 256 == 0 <==> lo == 0
  {
    var k, r := x / 256, x % 256;
    DivModIdentity(x, 256);
    if r == 0 {
      DivModUnique(x + lo as int, 256, k, lo as int);
    } else {
      DivModUnique(0 - r, 256, -1, 256 - r);
      DivModUnique(x + 256 - r, 256, k + 1, 0);
      DivModUnique(x + lo as int + 256 - r, 256, k + 1, lo as int);
    }
  }

  lemma SumOfDataFields(adr: nat, data: seq<byte>)
    requires adr < 0x1_0000
    ensures var x := 16 + adr / 256 + adr % 256 + Sum(data);
      Sum(DataFields(adr, data)) == x + Negate8(x) as int
  {
    var x := 16 + adr / 256 + adr % 256 + Sum(data);
    SumConcat([16, adr / 256, adr % 256, 0] + data, [Negate8(x)]);
    SumConcat([16, adr / 256, adr % 256, 0], data);
    SumFour(16, adr / 256, adr % 256, 0);
    SumOne(Negate8(x));
  }

  /** Every data record obeys the rule. */
  lemma DataChecksum(adr: nat, data: seq<byte>)
    requires adr < 0x1_0000
    ensures ChecksumHolds(Record(DataFields(adr, data)))
  {
    FieldsOfRecord(DataFields(adr, data));
    SumOfDataFields(adr, data);
    Negate8Cancels(16 + adr / 256 + adr % 256 + Sum(data), 0);
  }

  lemma SumOfSegmentFields(s: nat)
    requires s < 0x1_0000
    ensures Sum(SegmentFields(s)) == 4 + s / 256 + s % 256 + Negate8(4 + s / 256) as int
  {
    var hi: byte, lo: byte, check := s / 256, s % 256, Negate8(4 + s / 256);
    assert SegmentFields(s) == [2, 0, 0, 2] + [hi, lo, check];
    SumConcat([2, 0, 0, 2], [hi, lo, check]);
    SumFour(2, 0, 0, 2);
    SumFour(hi, lo, check, 0);
    SumConcat([hi, lo, check], [0]);
    SumOne(0);
    assert [hi, lo, check] + [0] == [hi, lo, check, 0];
  }

  /** A segment record obeys it only when the low byte of s is zero. */
  lemma SegmentChecksum(s: nat)
    requires s < 0x1_0000
    ensures ChecksumHolds(Record(SegmentFields(s))) <==> s % 256 == 0
  {
    FieldsOfRecord(SegmentFields(s));
    SumOfSegmentFields(s);
    Negate8Cancels(4 + s / 256, s % 256);
  }

  lemma SegmentLowByte(base: nat, i: nat)
    requires base % 16 == 0 && base <= i && (i - base) % 0x1_0000 == 0
    ensures SegmentAt(base, i) % 256 == 0 <==> base % 4096 == 0
  {
    var b, j := base / 16, (i - base) / 0x1_0000;
    DivModIdentity(base, 16);
    DivModIdentity(i - base, 0x1_0000);
    DivModUnique(i - base, 16, 4096 * j, 0);
    DivModIdentity(b, 256);
    DivModUnique(SegmentAt(base, i), 256, 64 + 16 * j + b / 256, b % 256);
    DivModUnique(base, 4096, b / 256, 16 * (b % 256));
  }

  lemma ChunkChecked(mem: memory, base: nat, i: nat)
    requires base % 4096 == 0 && base <= i && i + 16 <= MEM_SIZE
    ensures forall line :: line in Chunk(mem, base, i) ==> ChecksumHolds(line)
  {
    DataChecksum((i - base) % 0x1_0000, mem[i..i + 16]);
    if (i - base) % 0x1_0000 == 0 {
      DivModIdentity(base, 4096);
      DivModUnique(base, 16, 256 * (base / 4096), 0);
      SegmentStart(base, i);
      SegmentLowByte(base, i);
      SegmentChecksum(SegmentAt(base, i));
    }
  }

  lemma StepDown(base: nat, high: int, i: nat)
    requires base <= i < high && (high - i) % 16 == 0
    ensures i + 16 <= high && (high - (i + 16)) % 16 == 0
  {
  }

  lemma {:induction false} AllLinesChecked(mem: memory, base: nat, high: int, i: nat)
    requires base % 4096 == 0 && base <= i <= high <= MEM_SIZE && (high - i) % 16 == 0
    ensures forall line :: line in Lines(mem, base, high, i) ==> ChecksumHolds(line)
    decreases high - i
  {
    if i < high {
      StepDown(base, high, i);
      ChunkChecked(mem, base, i);
      AllLinesChecked(mem, base, high, i + 16);
    }
  }

  /** A printed image obeys the rule on every line exactly when its base is a
      multiple of 4096, although images start at any multiple of 2048. */
  lemma ImageChecksums(s: State)
    requires Aligned(s) && s.base < s.high
    ensures (forall line :: line in PrintedLines(s) ==> ChecksumHolds(line)) <==> s.base % 4096 == 0
  {
    BlocksArePrintable(s);
    if s.base % 4096 == 0 {
      AllLinesChecked(s.mem, s.base, s.high, s.base);
    } else {
      SegmentStart(s.base, s.base);
      SegmentLowByte(s.base, s.base);
      SegmentChecksum(SegmentAt(s.base, s.base));
      assert PrintedLines(s)[0] == Record(SegmentFields(SegmentAt(s.base, s.base)));
      assert PrintedLines(s)[0] in PrintedLines(s);
    }
  }
}
