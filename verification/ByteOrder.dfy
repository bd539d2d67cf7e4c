/** The numbers that bytes in memory stand for, by the weight of each byte. */
module ByteOrder {
  import opened Common
  import opened Arithmetic
  import opened Limbs

  function Weight(k: nat): (w: nat)
    ensures w > 0
  {
    if k == 0 then 1 else 256 * Weight(k - 1)
  }

  /** The sum of b[i] * 256^i. */
  function Little(b: seq<byte>): nat {
    if b == [] then 0 else Little(b[..|b| - 1]) + b[|b| - 1] as int * Weight(|b| - 1)
  }

  /** The sum of b[i] * 256^(|b| - 1 - i). */
  function Big(b: seq<byte>): nat {
    if b == [] then 0 else b[0] as int * Weight(|b| - 1) + Big(b[1..])
  }

  lemma {:induction false} LittleShifts(x: byte, b: seq<byte>)
    ensures Little([x] + b) == x as int + 256 * Little(b)
    decreases |b|
  {
    var all := [x] + b;
    if b == [] {
      assert all[..0] == [];
    } else {
      var last := b[|b| - 1] as int;
      assert all[..|all| - 1] == [x] + b[..|b| - 1];
      LittleShifts(x, b[..|b| - 1]);
      assert last * (256 * Weight(|b| - 1)) == 256 * (last * Weight(|b| - 1));
    }
  }

  lemma LittleFour(b0: byte, b1: byte, b2: byte, b3: byte, rest: seq<byte>)
    ensures Little([b0, b1, b2, b3] + rest) == BytesWord([b0, b1, b2, b3]) + WORD * Little(rest)
  {
    LittleShifts(b3, rest);
    LittleShifts(b2, [b3] + rest);
    LittleShifts(b1, [b2] + ([b3] + rest));
    LittleShifts(b0, [b1] + ([b2] + ([b3] + rest)));
    assert [b0] + ([b1] + ([b2] + ([b3] + rest))) == [b0, b1, b2, b3] + rest;
  }

  /** Words are stored with their lowest byte first ... */
  lemma WordIsLittle(w: word)
    ensures Little(WordBytes(w)) == w
  {
    var b := WordBytes(w);
    LittleFour(b[0], b[1], b[2], b[3], []);
    assert b == [b[0], b[1], b[2], b[3]] + [] == [b[0], b[1], b[2], b[3]];
    WordBytesRoundTrip(w);
  }

  lemma {:induction false} ValueIsLittle(b: seq<byte>)
    requires |b| % 4 == 0
    ensures Value(BytesWords(b)) == Little(b)
    decreases |b|
  {
    if b != [] {
      ValueIsLittle(b[4..]);
      LittleFour(b[0], b[1], b[2], b[3], b[4..]);
      assert b == [b[0], b[1], b[2], b[3]] + b[4..] && b[..4] == [b[0], b[1], b[2], b[3]];
      assert BytesWords(b)[1..] == BytesWords(b[4..]);
    }
  }

  /** ... and the other way round, four bytes are those of the word they denote. */
  lemma BytesRoundTrip(b: seq<byte>)
    requires |b| == 4
    ensures WordBytes(BytesWord(b)) == b
  {
    var b0, b1, b2, b3 := b[0] as int, b[1] as int, b[2] as int, b[3] as int;
    var w := BytesWord(b);
    DivModUnique(w, 0x100, b1 + 0x100 * b2 + 0x1_0000 * b3, b0);
    DivModUnique(b1 + 0x100 * b2 + 0x1_0000 * b3, 0x100, b2 + 0x100 * b3, b1);
    DivModUnique(w, 0x1_0000, b2 + 0x100 * b3, b0 + 0x100 * b1);
    DivModUnique(b2 + 0x100 * b3, 0x100, b3, b2);
    DivModUnique(w, 0x100_0000, b3, b0 + 0x100 * b1 + 0x1_0000 * b2);
  }

  /** An array of words, word by word. */
  lemma {:induction false} WordsAreLittle(ws: seq<word>, i: nat)
    requires i < |ws|
    ensures Little(WordsBytes(ws)[4 * i..4 * i + 4]) == ws[i]
    decreases i
  {
    var rest := WordsBytes(ws[1..]);
    assert WordsBytes(ws) == WordBytes(ws[0]) + rest;
    if i == 0 {
      WordIsLittle(ws[0]);
      assert WordsBytes(ws)[0..4] == WordBytes(ws[0]);
    } else {
      WordsAreLittle(ws[1..], i - 1);
      assert WordsBytes(ws)[4 * i..4 * i + 4] == rest[4 * (i - 1)..4 * (i - 1) + 4];
    }
  }

  lemma {:induction false} BigAppends(b: seq<byte>, x: byte)
    ensures Big(b + [x]) == 256 * Big(b) + x as int
    decreases |b|
  {
    if b == [] {
      assert b + [x] == [x] && [x][1..] == [];
    } else {
      var first := b[0] as int;
      assert (b + [x])[1..] == b[1..] + [x];
      BigAppends(b[1..], x);
      assert first * (256 * Weight(|b| - 1)) == 256 * (first * Weight(|b| - 1));
    }
  }
}
