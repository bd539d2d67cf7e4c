/** The fuse and info bitmaps of the signed header: 128 bits in four words. */
module Bitmap {
  import opened Common

  type bitmap = m: seq<bv32> | |m| == 4 witness [0, 0, 0, 0]

  type index = n: nat | n < ARRAY_MAX

  const EMPTY: bitmap := [0, 0, 0, 0]

  function BitOf(w: bv32, k: nat): bool
    requires k < 32
  {
    (w >> (k as bv32)) & 1 == 1
  }

  predicate IsMarked(m: bitmap, n: index) {
    BitOf(m[n / 32], n % 32)
  }

  function SetBit(w: bv32, k: nat): bv32
    requires k < 32
  {
    w | (1 << (k as bv32))
  }

  /** markFuse and markInfo. */
  function Mark(m: bitmap, n: index): bitmap {
    m[n / 32 := SetBit(m[n / 32], n % 32)]
  }

  lemma ShiftAmount(k: nat)
    requires k < 32
    ensures (k as bv32) < 32 && (k as bv32) as nat == k
  {
  }

  lemma OrOneBit(w: bv32, k: bv32, j: bv32)
    requires k < 32 && j < 32
    ensures ((w | (1 << k)) >> j) & 1 == 1 <==> j == k || (w >> j) & 1 == 1
  {
  }

  lemma SameWord(w: bv32, k: nat, j: nat)
    requires k < 32 && j < 32
    ensures BitOf(SetBit(w, k), j) <==> j == k || BitOf(w, j)
  {
    ShiftAmount(k);
    ShiftAmount(j);
    OrOneBit(w, k as bv32, j as bv32);
  }

  /** Marking sets the one bit and keeps the others. */
  lemma MarkSetsOneBit(m: bitmap, n: index, i: index)
    ensures IsMarked(Mark(m, n), i) <==> i == n || IsMarked(m, i)
  {
    assert i == n <==> i / 32 == n / 32 && i % 32 == n % 32;
    SameWord(m[n / 32], n % 32, i % 32);
  }

  lemma ZeroHasNoBit(j: bv32)
    requires j < 32
    ensures ((0 as bv32) >> j) & 1 == 0
  {
  }

  lemma EmptyHasNoMark(i: index)
    ensures !IsMarked(EMPTY, i)
  {
    ShiftAmount(i % 32);
    ZeroHasNoBit((i % 32) as bv32);
    assert EMPTY[i / 32] == 0;
  }

  /** Marking a run of indices. */
  function MarkAll(m: bitmap, ns: seq<index>): bitmap {
    if ns == [] then m else Mark(MarkAll(m, ns[..|ns| - 1]), ns[|ns| - 1])
  }

  lemma {:induction false} MarkAllSets(m: bitmap, ns: seq<index>, i: index)
    ensures IsMarked(MarkAll(m, ns), i) <==> i in ns || IsMarked(m, i)
    decreases |ns|
  {
    if ns != [] {
      var last := |ns| - 1;
      assert ns == ns[..last] + [ns[last]];
      MarkAllSets(m, ns[..last], i);
      MarkSetsOneBit(MarkAll(m, ns[..last]), ns[last], i);
    }
  }
}
