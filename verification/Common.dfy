/** Values every part of the signer shares: bytes, 32-bit words, and the
    little-endian view that lets one memory be read as either. */
module Common {

  datatype Option<+T> = None | Some(value: T)

  type byte = x: int | 0 <= x < 256

  type word = x: int | 0 <= x < 0x1_0000_0000

  const WORD: int := 0x1_0000_0000

  /** FUSE_MAX and INFO_MAX, the length of both arrays and bitmaps. */
  const ARRAY_MAX: int := 128

  // ----- words as little-endian bytes -----

  /** The four bytes a little-endian host stores for a word. */
  function WordBytes(w: word): (b: seq<byte>)
    ensures |b| == 4
  {
    [w % 0x100, w / 0x100 % 0x100, w / 0x1_0000 % 0x100, w / 0x100_0000]
  }

  function BytesWord(b: seq<byte>): word
    requires |b| == 4
  {
    (b[0] as int) + 0x100 * (b[1] as int) + 0x1_0000 * (b[2] as int) + 0x100_0000 * (b[3] as int)
  }

  lemma WordBytesRoundTrip(w: word)
    ensures BytesWord(WordBytes(w)) == w
  {
    var a: int := w / 0x100;
    var b: int := a / 0x100;
    QuotientOfQuotient(w, a, b);
    QuotientOfQuotient(a, b, b / 0x100);
    assert w / 0x100_0000 == b / 0x100 by { TopByte(w); }
  }

  lemma QuotientOfQuotient(w: int, a: int, b: int)
    requires a == w / 0x100 && b == a / 0x100
    ensures w == 0x100 * a + w % 0x100 && w / 0x1_0000 == b
  {
  }

  lemma TopByte(w: int)
    ensures w / 0x100_0000 == w / 0x1_0000 / 0x100
  {
  }

  function WordsBytes(ws: seq<word>): (b: seq<byte>)
    ensures |b| == 4 * |ws|
  {
    if ws == [] then [] else WordBytes(ws[0]) + WordsBytes(ws[1..])
  }

  function BytesWords(b: seq<byte>): (ws: seq<word>)
    requires |b| % 4 == 0
    ensures |ws| == |b| / 4
  {
    if b == [] then [] else [BytesWord(b[..4])] + BytesWords(b[4..])
  }

  lemma {:induction false} WordsBytesRoundTrip(ws: seq<word>)
    ensures BytesWords(WordsBytes(ws)) == ws
  {
    if ws != [] {
      var b := WordsBytes(ws);
      assert b[..4] == WordBytes(ws[0]) && b[4..] == WordsBytes(ws[1..]);
      WordsBytesRoundTrip(ws[1..]);
      WordBytesRoundTrip(ws[0]);
    }
  }

  lemma {:induction false} WordsBytesAppend(ws: seq<word>, w: word)
    ensures WordsBytes(ws + [w]) == WordsBytes(ws) + WordBytes(w)
  {
    if ws == [] {
      assert ws + [w] == [w];
      assert WordsBytes([w]) == WordBytes(w) + WordsBytes([]);
    } else {
      assert (ws + [w])[1..] == ws[1..] + [w];
      WordsBytesAppend(ws[1..], w);
    }
  }

  // ----- overwriting part of a memory -----

  /** The memory `s` after `b` has been copied over it from index `pos`. */
  function WriteAt<T>(s: seq<T>, pos: nat, b: seq<T>): (r: seq<T>)
    requires pos + |b| <= |s|
    ensures |r| == |s|
  {
    s[..pos] + b + s[pos + |b|..]
  }

  /** Reading back exactly what was written. */
  lemma SliceSame<T>(s: seq<T>, pos: nat, b: seq<T>)
    requires pos + |b| <= |s|
    ensures WriteAt(s, pos, b)[pos..pos + |b|] == b
  {
  }

  /** A slice that does not meet the written range is unchanged. */
  lemma SliceOther<T>(s: seq<T>, pos: nat, b: seq<T>, lo: nat, hi: nat)
    requires pos + |b| <= |s| && lo <= hi <= |s|
    requires hi <= pos || pos + |b| <= lo
    ensures WriteAt(s, pos, b)[lo..hi] == s[lo..hi]
  {
  }

  lemma SliceSplit<T>(s: seq<T>, lo: nat, mid: nat, hi: nat)
    requires lo <= mid <= hi <= |s|
    ensures s[lo..hi] == s[lo..mid] + s[mid..hi]
  {
  }

  lemma TakeNext<T>(s: seq<T>, n: nat)
    requires n < |s|
    ensures s[..n + 1] == s[..n] + [s[n]]
  {
  }

  lemma WriteAtAppend<T>(s: seq<T>, pos: nat, a: seq<T>, b: seq<T>)
    requires pos + |a| + |b| <= |s|
    ensures WriteAt(WriteAt(s, pos, a), pos + |a|, b) == WriteAt(s, pos, a + b)
  {
  }

  /** One aligned or unaligned 32-bit store into a byte memory. */
  method StoreWord(dst: array<byte>, pos: nat, w: word)
    requires pos + 4 <= dst.Length
    modifies dst
    ensures dst[..] == WriteAt(old(dst[..]), pos, WordBytes(w))
  {
    dst[pos] := w % 0x100;
    dst[pos + 1] := w / 0x100 % 0x100;
    dst[pos + 2] := w / 0x1_0000 % 0x100;
    dst[pos + 3] := w / 0x100_0000;
  }
}
