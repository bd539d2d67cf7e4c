/** Padding an image: which bytes it fills, and which images it spares. */
module Padding {
  import opened Common
  import opened Arithmetic
  import opened ByteOrder
  import opened ImageState
  import opened ElfLoad
  import opened ElfCases
  import opened HexRoundTrip

  // ----- what is filled -----

  /** Byte a of a memory filled from offset i with words f(i), f(i + 4), ... */
  function FilledByte(f: nat -> word, i: nat, a: nat): byte
    requires i <= a
  {
    WordBytes(f(i + (a - i) / 4 * 4))[(a - i) % 4]
  }

  lemma FilledByteShift(f: nat -> word, i: nat, a: nat)
    requires i <= a
    ensures i + 4 <= a ==> FilledByte(f, i, a) == FilledByte(f, i + 4, a)
    ensures a < i + 4 ==> FilledByte(f, i, a) == WordBytes(f(i))[a - i]
  {
    if i + 4 <= a {
      assert (a - i) / 4 == (a - (i + 4)) / 4 + 1 && (a - i) % 4 == (a - (i + 4)) % 4;
      assert i + (a - i) / 4 * 4 == i + 4 + (a - (i + 4)) / 4 * 4;
    }
  }

  lemma WordWritten(mem: memory, i: nat, w: word, a: nat)
    requires i + 4 <= MEM_SIZE && a < MEM_SIZE
    ensures WriteAt(mem, i, WordBytes(w))[a] == if i <= a < i + 4 then WordBytes(w)[a - i] else mem[a]
  {
  }

  lemma {:induction false} FillBytes(mem: memory, i: nat, f: nat -> word, a: nat)
    requires a < MEM_SIZE && (PAD_END - i) % 4 == 0
    ensures Fill(mem, i, f)[a] == if i <= a < PAD_END then FilledByte(f, i, a) else mem[a]
    decreases PAD_END - i
  {
    if i < PAD_END {
      NextWord(PAD_END - i);
      FillBytes(WriteAt(mem, i, WordBytes(f(i))), i + 4, f, a);
      WordWritten(mem, i, f(i), a);
      if i <= a {
        FilledByteShift(f, i, a);
      }
    }
  }

  lemma NextWord(rest: int)
    requires rest > 0 && rest % 4 == 0
    ensures rest >= 4 && (rest - 4) % 4 == 0
  {
  }

  lemma FillingIsWhole(s: State)
    requires Aligned(s)
    ensures (PAD_END - s.Size()) % 4 == 0
  {
    DivModUnique(PAD_END - s.Size(), 4, 512 * (255 - (s.high / BLOCK - s.base / BLOCK)), 0);
  }

  /** Padding, byte by byte: everything from size() up to the padding limit is
      filled, nothing else changes, and the image ends at the limit. */
  lemma PadFrame(s: State, f: nat -> word)
    requires Aligned(s)
    ensures var t := Pad(s, f);
      && t == s.(mem := t.mem, high := PAD_END)
      && forall a: nat :: a < MEM_SIZE ==>
           t.mem[a] == if s.Size() <= a < PAD_END then FilledByte(f, s.Size(), a) else s.mem[a]
  {
    FillingIsWhole(s);
    forall a: nat | a < MEM_SIZE
      ensures Pad(s, f).mem[a] == if s.Size() <= a < PAD_END then FilledByte(f, s.Size(), a) else s.mem[a]
    {
      FillBytes(s.mem, s.Size(), f, a);
    }
  }

  lemma WordAtOffset(f: nat -> word, start: nat, i: nat, k: nat)
    requires start <= i && (i - start) % 4 == 0 && k < 4
    ensures FilledByte(f, start, i + k) == WordBytes(f(i))[k]
  {
    assert (i + k - start) / 4 * 4 == i - start && (i + k - start) % 4 == k;
  }

  lemma WholeWord(s: State, i: nat)
    requires Aligned(s) && s.Size() <= i < PAD_END && (i - s.Size()) % 4 == 0
    ensures i + 4 <= PAD_END
  {
    FillingIsWhole(s);
  }

  /** The same, word by word: each group of four bytes from size() up to the limit
      is the little-endian form of the word for its offset. */
  lemma PadWords(s: State, f: nat -> word, i: nat)
    requires Aligned(s) && s.Size() <= i < PAD_END && (i - s.Size()) % 4 == 0
    ensures i + 4 <= PAD_END && Little(Pad(s, f).mem[i..i + 4]) == f(i)
  {
    WholeWord(s, i);
    PadFrame(s, f);
    var mem := Pad(s, f).mem;
    forall k: nat | k < 4 ensures mem[i + k] == WordBytes(f(i))[k] {
      WordAtOffset(f, s.Size(), i, k);
    }
    FourBytes(mem, i, WordBytes(f(i)));
    WordIsLittle(f(i));
  }

  lemma FourBytes(mem: memory, i: nat, b: seq<byte>)
    requires |b| == 4 && i + 4 <= MEM_SIZE && forall k: nat :: k < 4 ==> mem[i + k] == b[k]
    ensures mem[i..i + 4] == b
  {
  }

  // ----- which images survive -----

  /** The image of `s` is still the image of `t`, or the start of it. */
  predicate Survives(s: State, t: State)
    requires 0 <= s.base <= s.high <= MEM_SIZE
  {
    t.base == s.base && s.high <= t.high && t.mem[s.base..s.high] == s.mem[s.base..s.high]
  }

  lemma AlignedRoom(base: int, high: int)
    requires base % BLOCK == 0 && high % BLOCK == 0
    ensures base < high <==> base + BLOCK <= high
  {
  }

  lemma PaddingKeeps(s: State, f: nat -> word)
    requires Aligned(s) && s.base == 0 && s.high <= PAD_END
    ensures Survives(s, Pad(s, f))
  {
    PadFrame(s, f);
  }

  /** fillPattern's words. */
  function Always(w: word): nat -> word {
    _ => w
  }

  lemma ConstantFill(w: word, i: nat, a: nat)
    requires i <= a
    ensures w == 0 ==> FilledByte(Always(w), i, a) == 0
    ensures w == 0xffff_ffff ==> FilledByte(Always(w), i, a) == 0xff
  {
    assert WordBytes(0) == [0, 0, 0, 0];
    assert WordBytes(0xffff_ffff) == [0xff, 0xff, 0xff, 0xff];
  }

  /** A pattern that differs from a given byte everywhere. */
  function Other(b: byte): nat -> word {
    Always(if b == 0 then 0xffff_ffff else 0)
  }

  lemma OtherDiffers(b: byte, i: nat, a: nat)
    requires i <= a
    ensures FilledByte(Other(b), i, a) != b
  {
    ConstantFill(0, i, a);
    ConstantFill(0xffff_ffff, i, a);
  }

  /** The first byte padding overwrites in an image that does not start at 0. */
  function FirstFilled(s: State): int {
    Max(s.base, s.Size())
  }

  lemma PaddingOverwrites(s: State, f: nat -> word)
    requires Aligned(s) && s.base != 0 && s.base < s.high <= PAD_END
    ensures var a := FirstFilled(s);
      s.base <= a < s.high && Pad(s, f).mem[a] == FilledByte(f, s.Size(), a)
  {
    AlignedRoom(0, s.base);
    AlignedRoom(s.base, s.high);
    PadFrame(s, f);
  }

  lemma PaddingBreaks(s: State) returns (f: nat -> word)
    requires Aligned(s) && s.base < s.high && (s.base != 0 || s.high > PAD_END)
    ensures !Survives(s, Pad(s, f))
  {
    f := Always(0);
    if s.high <= PAD_END {
      var a := FirstFilled(s);
      AlignedRoom(0, s.base);
      AlignedRoom(s.base, s.high);
      f := Other(s.mem[a]);
      PaddingOverwrites(s, f);
      OtherDiffers(s.mem[a], s.Size(), a);
      assert Pad(s, f).mem[s.base..s.high][a - s.base] != s.mem[s.base..s.high][a - s.base];
    }
  }

  /** Padding starts at size(), not at the end of the image, and moves the end to
      the limit, not past it: a nonempty image survives every padding exactly
      when it starts at 0 and ends at or below the limit. */
  lemma PaddingIsSafeIff(s: State)
    requires Aligned(s) && s.base < s.high
    ensures (forall f: nat -> word :: Survives(s, Pad(s, f))) <==> s.base == 0 && s.high <= PAD_END
  {
    if s.base == 0 && s.high <= PAD_END {
      forall f: nat -> word ensures Survives(s, Pad(s, f)) {
        PaddingKeeps(s, f);
      }
    } else {
      var f := PaddingBreaks(s);
    }
  }

  // ----- two files whose images do not survive -----

  lemma FilledWithOnes(s: State, a: nat)
    requires Aligned(s) && s.Size() <= a < PAD_END
    ensures Pad(s, Always(0xffff_ffff)).mem[a] == 0xff
  {
    PadFrame(s, Always(0xffff_ffff));
    ConstantFill(0xffff_ffff, s.Size(), a);
  }

  /** The byte at a of a file with zeros from base to high, loaded and padded with ones. */
  function OverZeros(base: nat, high: nat, a: nat): byte
    requires base < high <= MEM_SIZE && a < MEM_SIZE
  {
    var s := BlockImage(base, Zeros(high - base));
    if s.base <= s.high then Pad(s, Always(0xffff_ffff)).mem[a] else s.mem[a]
  }

  /** The zeros of such a file are loaded, and padding overwrites all of them when
      there are no more of them than there are bytes in front of them. */
  lemma LoadedImageOverwritten(base: nat, high: nat)
    requires base % BLOCK == 0 && high % BLOCK == 0 && base < high <= PAD_END && high <= 2 * base
    ensures var s := BlockImage(base, Zeros(high - base));
      s.ok && s.base == base && s.high == high && s.mem[base..high] == Zeros(high - base)
    ensures forall a :: base <= a < high ==> OverZeros(base, high, a) == 0xff
  {
    BlocksLoad(base, high);
    forall a | base <= a < high ensures OverZeros(base, high, a) == 0xff {
      FilledWithOnes(BlockImage(base, Zeros(high - base)), a);
    }
  }

  lemma PadEnds(s: State, f: nat -> word)
    requires s.base <= s.high
    ensures Pad(s, f).base == s.base && Pad(s, f).high == PAD_END
  {
  }

  /** A file that reaches the end of the memory: any padding, even one that writes
      nothing, cuts off the last block, and leaves nothing when that is all. */
  lemma LoadedImageCut(base: nat, s: State, f: nat -> word)
    requires base % BLOCK == 0 && base < MEM_SIZE && s == BlockImage(base, Zeros(MEM_SIZE - base))
    ensures s.ok && s.base == base && s.high == MEM_SIZE
    ensures Pad(s, f).high == MEM_SIZE - BLOCK && (base == PAD_END ==> Pad(s, f).Size() == 0)
  {
    assert MEM_SIZE % BLOCK == 0;
    BlocksLoad(base, MEM_SIZE);
    FullImageCut(s, f);
  }

  lemma FullImageCut(s: State, f: nat -> word)
    requires s.base <= s.high == MEM_SIZE
    ensures Pad(s, f).high == MEM_SIZE - BLOCK && Pad(s, f).Size() == PAD_END - s.base
  {
    PadEnds(s, f);
  }
}
